/** The decoders together: from the compiler's own view of a contract to the profiler's lookup, and
    on to the line of the source. */
module Decoding {
  import opened Hex
  import opened LineOffsets
  import opened Lookup
  import opened PcSweep
  import opened Sequences
  import opened SourceMap
  import opened Text
  import opened Wrappers

  /** The tables that the profiler builds from a bytecode's hex text and its source map's text. */
  function TablesOf(codeHexStr: string, sourceMap: string): Code {
    Code(Some(PcToInstruction(codeHexStr)), Some(Expanded(sourceMap)))
  }

  function InfoOf(m: Mapping): SourceInfo {
    if m.file == -1 then Synthetic(Int(m.offset), Int(m.length))
    else Located(Int(m.file), Int(m.offset), Int(m.length))
  }

  /** For every instruction list and every legal compression of its source map, the lookup at the
      offset of the k-th instruction gives the k-th entry, and synthetic exactly for file -1, if and
      only if there is a k-th entry; the lookup throws for instructions behind the source map. */
  lemma {:induction false} LookupFindsEntry(code: seq<Instruction>, ms: seq<Mapping>, sections: seq<seq<string>>,
                                            before: string, after: string, other: Code, k: nat)
    requires Assembled(code) && LegalCompression(ms, sections) && k < |code|
    requires forall c | c in before + after :: IsSpace(c)
    ensures LookupGives(TablesOf(Assemble(code), before + Written(sections) + after), other, Offsets(code, 0)[k],
              if k < |ms| then Success(InfoOf(ms[k])) else Failure)
  {
    MappingOfAssembled(code);
    ExpandUndoesCompress(ms, sections, before, after);
    EntryIsFound(PcToInstruction(Assemble(code)), Expanded(before + Written(sections) + after), other,
      Offsets(code, 0)[k], k, ms);
  }

  lemma {:induction false} EntryIsFound(table: map<nat, nat>, entries: seq<Entry>, other: Code, pc: nat, k: nat,
                                        ms: seq<Mapping>)
    requires pc in table && table[pc] == k && |entries| == |ms|
    requires k < |ms| ==> entries[k] == Entry(Int(ms[k].offset), Int(ms[k].length), Int(ms[k].file), Some(ms[k].jump))
    ensures LookupGives(Code(Some(table), Some(entries)), other, pc,
              if k < |ms| then Success(InfoOf(ms[k])) else Failure)
  {}

  /** What the lookup at `pc` does, whether the code runs or is being constructed. */
  predicate LookupGives(tables: Code, other: Code, pc: nat, info: Result<SourceInfo>) {
    && GetSourceInfo(ContractCode(tables, other), false, pc) == info
    && GetSourceInfo(ContractCode(other, tables), true, pc) == info
  }

  /** The same with any data behind the code, as in every deployed contract and every constructor. */
  lemma {:induction false} LookupWithDataBehind(code: seq<Instruction>, data: seq<Byte>, ms: seq<Mapping>,
                                                sections: seq<seq<string>>, before: string, after: string,
                                                other: Code, k: nat)
    requires Whole(code) && LegalCompression(ms, sections) && k < |code|
    requires forall c | c in before + after :: IsSpace(c)
    ensures LookupGives(TablesOf(BytesHex(Flatten(code) + data), before + Written(sections) + after), other,
              Offsets(code, 0)[k], if k < |ms| then Success(InfoOf(ms[k])) else Failure)
  {
    DataBehindCode(code, data);
    OffsetsPrefix(code, Disassembled(data), 0, k);
    LookupFindsEntry(code + Disassembled(data), ms, sections, before, after, other, k);
  }

  // ---------------------------------------------------------------------------------------------
  // On to the line.

  /** A source as it is read: no line table for a skipped, missing or empty text. */
  function ReadSource(skip: bool, text: Option<string>): SourceFile {
    SourceFile(skip,
      if !skip && text.Some? && text.value != "" then Some(OffsetsOf(Split(text.value, '\n'), 0)) else None)
  }

  /** The search finds the line that an offset lies in. */
  ghost predicate FindsLines(closest: (seq<nat>, Num) -> nat) {
    forall table: seq<nat>, k: nat, p: nat | Increasing(table) && InLine(table, k, p) :: closest(table, Int(p)) == k
  }

  /** Such a search exists: the last entry that is not behind the offset. */
  function LastUpTo(table: seq<nat>, s: Num): nat {
    if |table| <= 1 then 0
    else if s.Int? && s.value < table[|table| - 1] then LastUpTo(table[..|table| - 1], s)
    else |table| - 1
  }

  lemma {:induction false} LastUpToFinds(table: seq<nat>, k: nat, p: nat)
    requires Increasing(table) && InLine(table, k, p)
    ensures LastUpTo(table, Int(p)) == k
  {
    if k < |table| - 1 {
      LastUpToFinds(table[..|table| - 1], k, p);
    }
  }

  lemma {:induction false} LastUpToFindsLines()
    ensures FindsLines(LastUpTo)
  {
    forall table: seq<nat>, k: nat, p: nat | Increasing(table) && InLine(table, k, p)
      ensures LastUpTo(table, Int(p)) == k
    {
      LastUpToFinds(table, k, p);
    }
  }

  /** The code that a frame runs. */
  function RunBy(env: Env, who: FrameId): Code {
    var code := env.CodeAt(who.target);
    if who.isConstructionCall then code.construction else code.runtime
  }

  /** Where gas belongs that an instruction with this lookup result uses. */
  ghost predicate PlacedByInfo(env: Env, info: Result<SourceInfo>, text: string, place: Result<Place>) {
    match info
    case Failure => place == Failure
    case Success(NoTables) => place == Success(Place(None, None, false))
    case Success(Synthetic(_, _)) => place == Success(Place(None, None, true))
    case Success(Located(file, offset, _)) =>
      if env.FileOf(file).skip || text == "" then
        place == Success(Place(Some(file), None, false))
      else
        && offset.Int?
        && 0 <= offset.value <= |text|
        && place == Success(Place(Some(file), Some(Newlines(text[..offset.value])), false))
  }

  /** All decoders together: the gas of the k-th instruction goes to the file of the k-th entry, and
      there to the line numbered by the newlines before the entry's offset. */
  lemma {:induction false} LocateFindsLine(env: Env, who: FrameId, code: seq<Instruction>, ms: seq<Mapping>,
                                           sections: seq<seq<string>>, before: string, after: string, text: string,
                                           k: nat)
    requires FindsLines(env.closest)
    requires Assembled(code) && LegalCompression(ms, sections) && k < |code|
    requires forall c | c in before + after :: IsSpace(c)
    requires RunBy(env, who) == TablesOf(Assemble(code), before + Written(sections) + after)
    requires k < |ms| ==> HasText(env, ms[k], text)
    ensures PlacedByInfo(env, if k < |ms| then Success(InfoOf(ms[k])) else Failure, text,
              Locate(env, who, Offsets(code, 0)[k]))
  {
    var both := env.CodeAt(who.target);
    var other := if who.isConstructionCall then both.runtime else both.construction;
    LookupFindsEntry(code, ms, sections, before, after, other, k);
    var info := if k < |ms| then Success(InfoOf(ms[k])) else Failure;
    LocateFromInfo(env, who, Offsets(code, 0)[k], other, info, text);
  }

  /** The entry's file has this text, and its offset lies in it; an empty text is one not found. */
  ghost predicate HasText(env: Env, m: Mapping, text: string) {
    m.file != -1 ==>
      && var source := env.FileOf(Int(m.file));
      && source == ReadSource(source.skip, Some(text))
      && (!source.skip && text != "" ==> 0 <= m.offset <= |text|)
  }

  lemma {:induction false} LocateFromInfo(env: Env, who: FrameId, pc: nat, other: Code, info: Result<SourceInfo>,
                                          text: string)
    requires FindsLines(env.closest)
    requires LookupGives(RunBy(env, who), other, pc, info)
    requires var both := env.CodeAt(who.target);
             other == if who.isConstructionCall then both.runtime else both.construction
    requires info.Success? && info.value.Located? ==>
               && info.value.offset.Int?
               && var source := env.FileOf(info.value.sourceId);
               && source == ReadSource(source.skip, Some(text))
               && (!source.skip && text != "" ==> 0 <= info.value.offset.value <= |text|)
    ensures PlacedByInfo(env, info, text, Locate(env, who, pc))
  {
    assert GetSourceInfo(env.CodeAt(who.target), who.isConstructionCall, pc) == info;
    if info.Success? && info.value.Located? && !env.FileOf(info.value.sourceId).skip && text != "" {
      ClosestIsLine(env.closest, text, info.value.offset.value);
    }
  }

  lemma {:induction false} ClosestIsLine(closest: (seq<nat>, Num) -> nat, text: string, p: nat)
    requires FindsLines(closest) && p <= |text|
    ensures closest(OffsetsOf(Split(text, '\n'), 0), Int(p)) == Newlines(text[..p])
  {
    LineTable(text);
    LineOfPosition(text, p, Newlines(text[..p]));
  }

  /** Anywhere else than at an instruction the lookup throws. */
  lemma {:induction false} LookupThrowsElsewhere(code: seq<Instruction>, sourceMap: string, other: Code, pc: nat)
    requires Assembled(code) && pc !in Offsets(code, 0)
    ensures LookupGives(TablesOf(Assemble(code), sourceMap), other, pc, Failure)
  {
    MappingOfAssembled(code);
  }

  /** Without one of the two tables it finds nothing, and does not throw. */
  lemma {:induction false} NoTablesNoInfo(code: Code, other: Code, pc: nat)
    requires code.pcToIdx == None || code.sourceMap == None
    ensures LookupGives(code, other, pc, Success(NoTables))
  {}
}
