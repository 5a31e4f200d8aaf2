/** From the compiler's view of the contracts to the printed line figures. */
module SourceReport {
  import opened Wrappers
  import opened Trace
  import opened Lookup
  import opened CallTree
  import opened Ledger
  import opened Figures
  import opened Numeric
  import opened Order
  import opened Printed
  import opened Report
  import opened Sequences
  import opened Truncation
  import opened Text
  import opened PcSweep
  import opened SourceMap
  import opened LineOffsets
  import opened Decoding

  /** A bytecode with its source map, compressed in some legal way and padded with white space. */
  datatype Compiled = Compiled(
    code: seq<Instruction>,
    entries: seq<Mapping>,
    sections: seq<seq<string>>,
    before: string,
    after: string)
  {
    ghost predicate Valid() {
      && Assembled(code)
      && LegalCompression(entries, sections)
      && forall c | c in before + after :: IsSpace(c)
    }

    ghost function Tables(): Code
      requires Valid()
    {
      TablesOf(Assemble(code), before + Written(sections) + after)
    }
  }

  /** What was compiled for the frames whose contract is known, and the texts of the source files. */
  datatype World = World(compiled: map<FrameId, Compiled>, texts: map<int, string>)
  {
    function TextOf(file: int): string {
      if file in texts then texts[file] else ""
    }
  }

  /** The profiler sees this world. */
  ghost predicate Describes(w: World, env: Env) {
    && FindsLines(env.closest)
    && (forall who | who in w.compiled :: IsCompiled(w, env, who))
    && (forall who | who !in w.compiled :: HasNoTables(env, who))
  }

  ghost predicate IsCompiled(w: World, env: Env, who: FrameId)
    requires who in w.compiled
  {
    var c := w.compiled[who];
    && c.Valid()
    && RunBy(env, who) == c.Tables()
    && forall k | 0 <= k < |c.entries| :: HasText(env, c.entries[k], w.TextOf(c.entries[k].file))
  }

  predicate HasNoTables(env: Env, who: FrameId) {
    var code := RunBy(env, who);
    code.pcToIdx.None? || code.sourceMap.None?
  }

  /** The entry is for this line of this file. */
  predicate EntryOnLine(w: World, env: Env, m: Mapping, file: int, line: nat) {
    var text := w.TextOf(file);
    && m.file == file != -1
    && !env.FileOf(Int(file)).skip
    && text != ""
    && 0 <= m.offset <= |text|
    && line == Newlines(text[..m.offset])
  }

  /** The instruction at `pc` has such an entry. */
  ghost predicate RunsLine(w: World, env: Env, who: FrameId, pc: nat, file: int, line: nat) {
    && who in w.compiled
    && var c := w.compiled[who];
       exists k | 0 <= k < |c.code| && k < |c.entries| ::
         Offsets(c.code, 0)[k] == pc && EntryOnLine(w, env, c.entries[k], file, line)
  }

  lemma {:induction false} NoInstruction(w: World, env: Env, who: FrameId, pc: nat, file: int, line: nat,
                                         inclusive: bool)
    requires who in w.compiled && IsCompiled(w, env, who) && pc !in Offsets(w.compiled[who].code, 0)
    ensures BucketOf(env, who, pc, inclusive) == Unattributed && !RunsLine(w, env, who, pc, file, line)
  {
    MappingOfAssembled(w.compiled[who].code);
  }

  lemma {:induction false} InstructionOnLine(w: World, env: Env, who: FrameId, k: nat, file: int, line: nat,
                                             inclusive: bool)
    requires FindsLines(env.closest) && who in w.compiled && IsCompiled(w, env, who) && k < |w.compiled[who].code|
    ensures var c := w.compiled[who];
            BucketOf(env, who, Offsets(c.code, 0)[k], inclusive) == Line(Int(file), line)
            <==> k < |c.entries| && EntryOnLine(w, env, c.entries[k], file, line)
  {
    var c := w.compiled[who];
    var pc := Offsets(c.code, 0)[k];
    var text := if k < |c.entries| then w.TextOf(c.entries[k].file) else "";
    assert k < |c.entries| ==> HasText(env, c.entries[k], text);
    LocateFindsLine(env, who, c.code, c.entries, c.sections, c.before, c.after, text, k);
    if k < |c.entries| {
      BucketFromEntry(env, who, pc, c.entries[k], text, inclusive);
    }
  }

  /** The bucket of an instruction, from the entry that places it. */
  lemma {:induction false} BucketFromEntry(env: Env, who: FrameId, pc: nat, m: Mapping, text: string,
                                           inclusive: bool)
    requires PlacedByInfo(env, Success(InfoOf(m)), text, Locate(env, who, pc))
    ensures m.file == -1 || env.FileOf(Int(m.file)).skip || text == "" ==>
              !BucketOf(env, who, pc, inclusive).Line?
    ensures m.file != -1 && !env.FileOf(Int(m.file)).skip && text != "" ==>
              && 0 <= m.offset <= |text|
              && BucketOf(env, who, pc, inclusive) == Line(Int(m.file), Newlines(text[..m.offset]))
  {}

  lemma {:induction false} OnlyInstructionAt(offsets: seq<nat>, j: nat, k: nat)
    requires Increasing(offsets) && j < |offsets| && k < |offsets| && offsets[j] == offsets[k]
    ensures j == k
  {}

  /** An instruction runs the line of its own entry. */
  lemma {:induction false} RunsOwnEntry(w: World, env: Env, who: FrameId, k: nat, file: int, line: nat)
    requires who in w.compiled && w.compiled[who].Valid() && k < |w.compiled[who].code|
    ensures var c := w.compiled[who];
            RunsLine(w, env, who, Offsets(c.code, 0)[k], file, line)
            <==> k < |c.entries| && EntryOnLine(w, env, c.entries[k], file, line)
  {
    var c := w.compiled[who];
    MappingOfAssembled(c.code);
    forall j | 0 <= j < |c.code| && Offsets(c.code, 0)[j] == Offsets(c.code, 0)[k] ensures j == k {
      OnlyInstructionAt(Offsets(c.code, 0), j, k);
    }
  }

  /** Gas goes to a line exactly when the instruction that uses it has an entry for the line. */
  lemma {:induction false} BucketIsLine(w: World, env: Env, who: FrameId, pc: nat, file: int, line: nat,
                                        inclusive: bool)
    requires Describes(w, env)
    ensures BucketOf(env, who, pc, inclusive) == Line(Int(file), line) <==> RunsLine(w, env, who, pc, file, line)
  {
    if who !in w.compiled {
      NoTablesNoLine(w, env, who, pc, file, line, inclusive);
    } else {
      assert IsCompiled(w, env, who);
      var offsets := Offsets(w.compiled[who].code, 0);
      if pc in offsets {
        var k :| 0 <= k < |offsets| && offsets[k] == pc;
        InstructionOnLine(w, env, who, k, file, line, inclusive);
        RunsOwnEntry(w, env, who, k, file, line);
      } else {
        NoInstruction(w, env, who, pc, file, line, inclusive);
      }
    }
  }

  lemma {:induction false} NoTablesNoLine(w: World, env: Env, who: FrameId, pc: nat, file: int, line: nat,
                                          inclusive: bool)
    requires Describes(w, env) && who !in w.compiled
    ensures BucketOf(env, who, pc, inclusive) == Unattributed && !RunsLine(w, env, who, pc, file, line)
  {
    assert HasNoTables(env, who);
  }

  /** Gas that log `i` adds to a line: over the call it makes, if that returns, or its own cost. */
  ghost function GasOnLine(w: World, env: Env, only: Option<Address>, logs: Logs, entry: FrameId, file: int,
                           line: nat, i: nat): int
    requires i < |logs|
  {
    var who := FrameOf(logs, entry, i);
    if !Passes(only, who.target) || !RunsLine(w, env, who, logs[i].pc, file, line) then 0
    else if Returns(logs, i) then logs[i].gas - logs[ReturnOf(logs, i)].gas
    else if Opens(logs, i) then 0
    else CostAt(logs, i)
  }

  ghost function GasOnLineFrom(w: World, env: Env, only: Option<Address>, logs: Logs, entry: FrameId, file: int,
                               line: nat, a: nat): int
    requires a <= |logs|
    decreases |logs| - a
  {
    if a == |logs| then 0
    else
      GasOnLine(w, env, only, logs, entry, file, line, a)
      + GasOnLineFrom(w, env, only, logs, entry, file, line, a + 1)
  }

  lemma {:induction false} AmountOnLine(env: Env, only: Option<Address>, logs: Logs, entry: FrameId, source: Num,
                                        line: nat, i: nat)
    requires i < |logs|
    ensures var who := FrameOf(logs, entry, i);
            AmountByLog(env, only, OfLine(source, line), logs, entry, i)
            == if !Passes(only, who.target)
                  || BucketOf(env, who, logs[i].pc, Returns(logs, i)) != Line(source, line) then 0
               else if Returns(logs, i) then logs[i].gas - logs[ReturnOf(logs, i)].gas
               else if Opens(logs, i) then 0
               else CostAt(logs, i)
  {}

  lemma {:induction false} GasOfLog(w: World, env: Env, only: Option<Address>, logs: Logs, entry: FrameId,
                                    file: int, line: nat, i: nat)
    requires Describes(w, env) && i < |logs|
    ensures AmountByLog(env, only, OfLine(Int(file), line), logs, entry, i)
            == GasOnLine(w, env, only, logs, entry, file, line, i)
  {
    BucketIsLine(w, env, FrameOf(logs, entry, i), logs[i].pc, file, line, Returns(logs, i));
    AmountOnLine(env, only, logs, entry, Int(file), line, i);
  }

  lemma {:induction false} GasOfLogs(w: World, env: Env, only: Option<Address>, logs: Logs, entry: FrameId,
                                     file: int, line: nat, a: nat)
    requires Describes(w, env) && a <= |logs|
    ensures BalanceFrom(env, only, OfLine(Int(file), line), logs, entry, a)
            == GasOnLineFrom(w, env, only, logs, entry, file, line, a)
    decreases |logs| - a
  {
    if a < |logs| {
      GasOfLog(w, env, only, logs, entry, file, line, a);
      GasOfLogs(w, env, only, logs, entry, file, line, a + 1);
    }
  }

  /** What is printed for a line of a source file is, modulo 2^32, the gas of exactly the logs whose
      instruction the compiler maps to that line. */
  lemma {:induction false} PrintedSourceLine(w: World, env: Env, only: Option<Address>, logs: Logs, entry: FrameId,
                                             t: Tables, file: int, line: nat)
    requires Describes(w, env) && DepthsOk(logs)
    requires t.FinalReport(logs, entry, TraceEvents(logs, entry), Recorded(env, only, TraceEvents(logs, entry)))
    ensures Congruent(Stored(t.LinesOf(Int(file)), line), GasOnLineFrom(w, env, only, logs, entry, file, line, 0))
  {
    var cs := Recorded(env, only, TraceEvents(logs, entry));
    assert t.LinesOf(Int(file)) == LineGas(cs, Int(file));
    StoredIsCongruent(cs, Int(file), line);
    BalanceByLog(env, only, OfLine(Int(file), line), logs, entry);
    GasOfLogs(w, env, only, logs, entry, file, line, 0);
  }

  /** It is that gas itself if and only if all of it but the last charge fits in 32 signed bits. */
  lemma {:induction false} PrintedSourceLineIsExact(w: World, env: Env, only: Option<Address>, logs: Logs,
                                                    entry: FrameId, t: Tables, file: int, line: nat, i: nat)
    requires Describes(w, env) && DepthsOk(logs)
    requires t.FinalReport(logs, entry, TraceEvents(logs, entry), Recorded(env, only, TraceEvents(logs, entry)))
    requires i < |logs| && LastOnLine(env, only, logs, entry, Int(file), line, i)
    ensures var gas := GasOnLineFrom(w, env, only, logs, entry, file, line, 0);
            Stored(t.LinesOf(Int(file)), line) == gas
            <==> InInt32(gas - GasOnLine(w, env, only, logs, entry, file, line, i))
  {
    assert SumsTo(w, env, only, logs, entry, file, line, i) by {
      GasOfLogs(w, env, only, logs, entry, file, line, 0);
      GasOfLog(w, env, only, logs, entry, file, line, i);
    }
    StoredDecides(w, env, only, logs, entry, file, line, i);
    assert t.LinesOf(Int(file)) == LineGas(Recorded(env, only, TraceEvents(logs, entry)), Int(file));
  }

  lemma {:induction false} StoredDecides(w: World, env: Env, only: Option<Address>, logs: Logs, entry: FrameId,
                                         file: int, line: nat, i: nat)
    requires DepthsOk(logs) && i < |logs| && SumsTo(w, env, only, logs, entry, file, line, i)
    requires LastOnLine(env, only, logs, entry, Int(file), line, i)
    ensures var gas := GasOnLineFrom(w, env, only, logs, entry, file, line, 0);
            Stored(LineGas(Recorded(env, only, TraceEvents(logs, entry)), Int(file)), line) == gas
            <==> InInt32(gas - GasOnLine(w, env, only, logs, entry, file, line, i))
  {
    var figure := StoredFigure(env, only, logs, entry, Int(file), line, i);
    FigureDecides(w, env, only, logs, entry, file, line, i, figure);
  }

  lemma {:induction false} StoredFigure(env: Env, only: Option<Address>, logs: Logs, entry: FrameId, source: Num,
                                        line: nat, i: nat)
    returns (figure: int)
    requires DepthsOk(logs) && i < |logs| && LastOnLine(env, only, logs, entry, source, line, i)
    ensures figure == Stored(LineGas(Recorded(env, only, TraceEvents(logs, entry)), source), line)
    ensures DecidedBy(env, only, logs, entry, source, line, i, figure)
  {
    figure := Stored(LineGas(Recorded(env, only, TraceEvents(logs, entry)), source), line);
    SumDecides(env, only, logs, entry, source, line, i,
      BalanceFrom(env, only, OfLine(source, line), logs, entry, 0),
      AmountByLog(env, only, OfLine(source, line), logs, entry, i));
  }

  /** The gas of the line and of log `i`, as they are recorded. */
  ghost predicate SumsTo(w: World, env: Env, only: Option<Address>, logs: Logs, entry: FrameId, file: int,
                         line: nat, i: nat)
    requires i < |logs|
  {
    && GasOnLineFrom(w, env, only, logs, entry, file, line, 0)
       == BalanceFrom(env, only, OfLine(Int(file), line), logs, entry, 0)
    && GasOnLine(w, env, only, logs, entry, file, line, i)
       == AmountByLog(env, only, OfLine(Int(file), line), logs, entry, i)
  }

  ghost predicate DecidedBy(env: Env, only: Option<Address>, logs: Logs, entry: FrameId, source: Num, line: nat,
                            i: nat, figure: int)
    requires i < |logs|
  {
    var sum := BalanceFrom(env, only, OfLine(source, line), logs, entry, 0);
    figure == sum <==> InInt32(sum - AmountByLog(env, only, OfLine(source, line), logs, entry, i))
  }

  lemma {:induction false} FigureDecides(w: World, env: Env, only: Option<Address>, logs: Logs, entry: FrameId,
                                         file: int, line: nat, i: nat, figure: int)
    requires i < |logs| && SumsTo(w, env, only, logs, entry, file, line, i)
    requires DecidedBy(env, only, logs, entry, Int(file), line, i, figure)
    ensures var gas := GasOnLineFrom(w, env, only, logs, entry, file, line, 0);
            figure == gas <==> InInt32(gas - GasOnLine(w, env, only, logs, entry, file, line, i))
  {}

  // ---------------------------------------------------------------------------------------------
  // Synthetic gas.

  /** The instruction at `pc` has an entry with file -1, in whatever code the frame runs. */
  ghost predicate RunsSynthetic(w: World, who: FrameId, pc: nat) {
    && who in w.compiled
    && var c := w.compiled[who];
       exists k | 0 <= k < |c.code| && k < |c.entries| :: Offsets(c.code, 0)[k] == pc && c.entries[k].file == -1
  }

  lemma {:induction false} InfoOfInstruction(w: World, env: Env, who: FrameId, k: nat)
    requires who in w.compiled && IsCompiled(w, env, who) && k < |w.compiled[who].code|
    ensures var c := w.compiled[who];
            GetSourceInfo(env.CodeAt(who.target), who.isConstructionCall, Offsets(c.code, 0)[k])
            == if k < |c.entries| then Success(InfoOf(c.entries[k])) else Failure
  {
    var c, both := w.compiled[who], env.CodeAt(who.target);
    var other := if who.isConstructionCall then both.runtime else both.construction;
    LookupFindsEntry(c.code, c.entries, c.sections, c.before, c.after, other, k);
  }

  lemma {:induction false} SyntheticAtInstruction(w: World, env: Env, who: FrameId, k: nat)
    requires who in w.compiled && IsCompiled(w, env, who) && k < |w.compiled[who].code|
    ensures var c := w.compiled[who];
            && (IsSynthetic(env, who, Offsets(c.code, 0)[k]) <==> k < |c.entries| && c.entries[k].file == -1)
            && (RunsSynthetic(w, who, Offsets(c.code, 0)[k]) <==> k < |c.entries| && c.entries[k].file == -1)
  {
    InfoOfInstruction(w, env, who, k);
    RunsOwnSynthetic(w, who, k);
  }

  lemma {:induction false} RunsOwnSynthetic(w: World, who: FrameId, k: nat)
    requires who in w.compiled && Assembled(w.compiled[who].code) && k < |w.compiled[who].code|
    ensures var c := w.compiled[who];
            RunsSynthetic(w, who, Offsets(c.code, 0)[k]) <==> k < |c.entries| && c.entries[k].file == -1
  {
    var c := w.compiled[who];
    MappingOfAssembled(c.code);
    forall j | 0 <= j < |c.code| && Offsets(c.code, 0)[j] == Offsets(c.code, 0)[k] ensures j == k {
      OnlyInstructionAt(Offsets(c.code, 0), j, k);
    }
  }

  lemma {:induction false} NoSyntheticElsewhere(w: World, env: Env, who: FrameId, pc: nat)
    requires who in w.compiled && IsCompiled(w, env, who) && pc !in Offsets(w.compiled[who].code, 0)
    ensures !IsSynthetic(env, who, pc) && !RunsSynthetic(w, who, pc)
  {
    var c, both := w.compiled[who], env.CodeAt(who.target);
    var other := if who.isConstructionCall then both.runtime else both.construction;
    LookupThrowsElsewhere(c.code, c.before + Written(c.sections) + c.after, other, pc);
  }

  lemma {:induction false} NoTablesNotSynthetic(w: World, env: Env, who: FrameId, pc: nat)
    requires who !in w.compiled && HasNoTables(env, who)
    ensures !IsSynthetic(env, who, pc) && !RunsSynthetic(w, who, pc)
  {}

  /** The lookup calls an instruction synthetic exactly when its entry has file -1. */
  lemma {:induction false} SyntheticIsEntry(w: World, env: Env, who: FrameId, pc: nat)
    requires Describes(w, env)
    ensures IsSynthetic(env, who, pc) <==> RunsSynthetic(w, who, pc)
  {
    if who !in w.compiled {
      NoTablesNotSynthetic(w, env, who, pc);
    } else {
      assert IsCompiled(w, env, who);
      var offsets := Offsets(w.compiled[who].code, 0);
      if pc in offsets {
        var k :| 0 <= k < |offsets| && offsets[k] == pc;
        SyntheticAtInstruction(w, env, who, k);
      } else {
        NoSyntheticElsewhere(w, env, who, pc);
      }
    }
  }

  /** The synthetic cost of the logs from `i` on, those being synthetic whose instruction has an entry
      with file -1. */
  ghost function SyntheticFromEntries(w: World, only: Option<Address>, logs: Logs, entry: FrameId,
                                      contract: Address, i: nat): int
    requires i <= |logs|
    decreases |logs| - i
  {
    if i == |logs| then 0
    else
      SyntheticFromEntries(w, only, logs, entry, contract, i + 1)
      + SyntheticCost(only, logs, entry, contract, i, RunsSynthetic(w, FrameOf(logs, entry, i), logs[i].pc))
  }

  ghost predicate Agrees(w: World, env: Env, logs: Logs, entry: FrameId, i: nat)
    requires i < |logs|
  {
    var who := FrameOf(logs, entry, i);
    IsSynthetic(env, who, logs[i].pc) <==> RunsSynthetic(w, who, logs[i].pc)
  }

  lemma {:induction false} SyntheticIsFromEntries(w: World, env: Env, only: Option<Address>, logs: Logs,
                                                  entry: FrameId, contract: Address, i: nat)
    requires i <= |logs| && forall j | i <= j < |logs| :: Agrees(w, env, logs, entry, j)
    ensures SyntheticGas(env, only, logs, entry, contract, i)
            == SyntheticFromEntries(w, only, logs, entry, contract, i)
    decreases |logs| - i
  {
    if i < |logs| {
      SyntheticIsFromEntries(w, env, only, logs, entry, contract, i + 1);
      assert Agrees(w, env, logs, entry, i);
    }
  }

  /** What is printed as a contract's synthetic gas is the cost of exactly these logs, for runtime and
      construction code alike. */
  lemma {:induction false} PrintedSyntheticGas(w: World, env: Env, only: Option<Address>, logs: Logs,
                                               entry: FrameId, t: Tables, contract: Address)
    requires Describes(w, env) && DepthsOk(logs)
    requires t.FinalReport(logs, entry, TraceEvents(logs, entry), Recorded(env, only, TraceEvents(logs, entry)))
    ensures t.SynthOf(contract) == SyntheticFromEntries(w, only, logs, entry, contract, 0)
  {
    PrintedSynthetic(env, only, logs, entry, t, contract);
    forall j | 0 <= j < |logs| ensures Agrees(w, env, logs, entry, j) {
      SyntheticIsEntry(w, env, FrameOf(logs, entry, j), logs[j].pc);
    }
    SyntheticIsFromEntries(w, env, only, logs, entry, contract, 0);
  }
}
