/** From byte offsets to instruction numbers: the sweep over the hex text of a bytecode. The
    immediates of PUSH1..PUSH32 (Appendix H of the Ethereum Yellow Paper) are skipped. */
module PcSweep {
  import opened Wrappers
  import opened Hex
  import opened Sequences

  /** The byte at `pc` as the sweep reads it; the text may stop in the middle of a byte. */
  function ByteAt(code: string, pc: nat): Option<int>
    requires 2 * pc < |code|
  {
    ParseHexPair(code[2 * pc], if 2 * pc + 1 < |code| then Some(code[2 * pc + 1]) else None)
  }

  /** Number of immediate bytes of an opcode. */
  function PushSize(op: int): nat {
    if 0x60 <= op <= 0x7f then op - 0x60 + 1 else 0
  }

  type Size = n: nat | n > 0 witness 1

  /** How far the sweep moves from the instruction at `pc`; a byte that is not hex is no push. */
  function SizeAt(code: string, pc: nat): Size
    requires 2 * pc < |code|
  {
    var byte := ByteAt(code, pc);
    if byte.Some? then 1 + PushSize(byte.value) else 1
  }

  /** The same for every byte, should an instruction start there. */
  function SizesOf(code: string): (sizes: seq<Size>)
    ensures |code| <= 2 * |sizes| <= |code| + 1
    ensures forall pc | 0 <= pc < |sizes| :: sizes[pc] == SizeAt(code, pc)
  {
    seq((|code| + 1) / 2, pc requires 0 <= pc < (|code| + 1) / 2 => SizeAt(code, pc))
  }

  /** The offsets the sweep stops at, from `pc` on. */
  function StartsFrom(sizes: seq<Size>, pc: nat): seq<nat>
    decreases |sizes| - pc
  {
    if |sizes| <= pc then [] else [pc] + StartsFrom(sizes, pc + sizes[pc])
  }

  function Starts(code: string): seq<nat> {
    StartsFrom(SizesOf(code), 0)
  }

  /** The table that numbers a list of offsets. */
  function Numbered(starts: seq<nat>): map<nat, nat> {
    if starts == [] then map[] else Numbered(starts[..|starts| - 1])[starts[|starts| - 1] := |starts| - 1]
  }

  function PcToInstruction(code: string): map<nat, nat> {
    Numbered(Starts(code))
  }

  /** The sweep has stopped at these offsets, has numbered them, and goes on at `pc`. */
  ghost predicate SweptTo(code: string, swept: seq<nat>, pc: nat, mapping: map<nat, nat>) {
    && swept + StartsFrom(SizesOf(code), pc) == Starts(code)
    && mapping == Numbered(swept)
  }

  lemma {:induction false} SweepOn(code: string, swept: seq<nat>, pc: nat, mapping: map<nat, nat>)
    requires 2 * pc < |code| && SweptTo(code, swept, pc, mapping)
    ensures SweptTo(code, swept + [pc], pc + SizeAt(code, pc), mapping[pc := |swept|])
  {
    var sizes := SizesOf(code);
    NumberedPush(swept, pc);
    assert sizes[pc] == SizeAt(code, pc);
    ConcatAssociates(swept, [pc], StartsFrom(sizes, pc + sizes[pc]));
  }

  lemma {:induction false} SweepEnds(code: string, swept: seq<nat>, pc: nat, mapping: map<nat, nat>)
    requires |code| <= 2 * pc && SweptTo(code, swept, pc, mapping)
    ensures mapping == PcToInstruction(code)
  {
    assert swept + [] == swept;
  }

  lemma {:induction false} SweepStarts(code: string)
    ensures SweptTo(code, [], 0, map[])
  {
    assert [] + Starts(code) == Starts(code);
  }

  lemma {:induction false} SizeOfByte(code: string, pc: nat)
    requires 2 * pc < |code|
    ensures var byte := ByteAt(code, pc);
            SizeAt(code, pc) == if byte.Some? && 0x60 <= byte.value <= 0x7f then byte.value - 0x60 + 2 else 1
  {}

  method BuildPcToInstructionMapping(codeHexStr: string) returns (mapping: map<nat, nat>)
    ensures mapping == PcToInstruction(codeHexStr)
  {
    mapping := map[];
    var instructionIndex := 0;
    var pc := 0;
    ghost var swept: seq<nat> := [];
    SweepStarts(codeHexStr);
    while 2 * pc < |codeHexStr|
      invariant instructionIndex == |swept|
      invariant SweptTo(codeHexStr, swept, pc, mapping)
      decreases |codeHexStr| - 2 * pc
    {
      SweepOn(codeHexStr, swept, pc, mapping);
      ghost var next := pc + SizeAt(codeHexStr, pc);
      SizeOfByte(codeHexStr, pc);
      mapping := mapping[pc := instructionIndex];
      swept := swept + [pc];
      var byte := ByteAt(codeHexStr, pc);
      if byte.Some? && 0x60 <= byte.value <= 0x7f {
        var n := byte.value - 0x60 + 1;
        pc := pc + n + 1;
      } else {
        pc := pc + 1;
      }
      assert pc == next;
      instructionIndex := instructionIndex + 1;
    }
    SweepEnds(codeHexStr, swept, pc, mapping);
  }

  lemma {:induction false} NumberedPush(starts: seq<nat>, pc: nat)
    ensures Numbered(starts + [pc]) == Numbered(starts)[pc := |starts|]
  {
    assert (starts + [pc])[..|starts|] == starts;
  }

  // ---------------------------------------------------------------------------------------------
  // On any text: offsets increase, are numbered in order, and are the only keys.

  lemma {:induction false} StartsIncrease(sizes: seq<Size>, pc: nat, i: nat)
    requires i < |StartsFrom(sizes, pc)|
    ensures pc <= StartsFrom(sizes, pc)[i]
    ensures i > 0 ==> pc < StartsFrom(sizes, pc)[i]
    ensures forall j | i < j < |StartsFrom(sizes, pc)| :: StartsFrom(sizes, pc)[i] < StartsFrom(sizes, pc)[j]
    decreases |sizes| - pc
  {
    var next := pc + sizes[pc];
    if i > 0 {
      StartsIncrease(sizes, next, i - 1);
    } else {
      forall j | 0 < j < |StartsFrom(sizes, pc)| ensures pc < StartsFrom(sizes, pc)[j] {
        StartsIncrease(sizes, next, j - 1);
      }
    }
  }

  lemma {:induction false} NumberedInOrder(starts: seq<nat>)
    requires Increasing(starts)
    ensures Numbers(Numbered(starts), starts)
  {
    if starts != [] {
      NumberedInOrder(starts[..|starts| - 1]);
    }
  }

  /** The table's keys are these offsets, each with its position. */
  ghost predicate Numbers(table: map<nat, nat>, starts: seq<nat>) {
    && (forall k | 0 <= k < |starts| :: starts[k] in table && table[starts[k]] == k)
    && (forall pc | pc in table :: pc in starts)
  }

  lemma {:induction false} MappingNumbersStarts(code: string)
    ensures Increasing(Starts(code))
    ensures Numbers(PcToInstruction(code), Starts(code))
  {
    forall i | 0 <= i < |Starts(code)|
      ensures forall j | i < j < |Starts(code)| :: Starts(code)[i] < Starts(code)[j]
    {
      StartsIncrease(SizesOf(code), 0, i);
    }
    NumberedInOrder(Starts(code));
  }

  // ---------------------------------------------------------------------------------------------
  // Sweeping undoes assembling.

  datatype Instruction = Instruction(op: Byte, immediate: seq<Byte>)
  {
    function Size(): (n: nat)
      ensures n > 0
    {
      1 + |immediate|
    }
  }

  function Flatten(code: seq<Instruction>): seq<Byte> {
    if code == [] then [] else [code[0].op] + code[0].immediate + Flatten(code[1..])
  }

  /** The hex text of the code. */
  function Assemble(code: seq<Instruction>): string {
    BytesHex(Flatten(code))
  }

  /** Every instruction has the immediate its opcode asks for; the last one may be cut short. */
  ghost predicate Assembled(code: seq<Instruction>) {
    forall k | 0 <= k < |code| ::
      && |code[k].immediate| <= PushSize(code[k].op)
      && (k < |code| - 1 ==> |code[k].immediate| == PushSize(code[k].op))
  }

  /** Where each instruction starts when the first one starts at `base`. */
  function Offsets(code: seq<Instruction>, base: nat): (offsets: seq<nat>)
    ensures |offsets| == |code|
  {
    if code == [] then [] else [base] + Offsets(code[1..], base + code[0].Size())
  }

  /** Each instruction starts where the one before it ends. */
  lemma {:induction false} OffsetsAdjacent(code: seq<Instruction>, base: nat, k: nat)
    requires k < |code|
    ensures Offsets(code, base)[k] == if k == 0 then base else Offsets(code, base)[k - 1] + code[k - 1].Size()
  {
    if k > 0 {
      OffsetsAdjacent(code[1..], base + code[0].Size(), k - 1);
    }
  }

  /** The bytes from `pc` on are those of the code. */
  ghost predicate HoldsFrom(bytes: seq<Byte>, pc: nat, code: seq<Instruction>) {
    && pc + |Flatten(code)| == |bytes|
    && forall j | 0 <= j < |Flatten(code)| :: bytes[pc + j] == Flatten(code)[j]
  }

  lemma {:induction false} HoldsFromNext(bytes: seq<Byte>, pc: nat, code: seq<Instruction>)
    requires code != [] && HoldsFrom(bytes, pc, code)
    ensures pc < |bytes| && bytes[pc] == code[0].op
    ensures |code| == 1 ==> pc + code[0].Size() == |bytes|
    ensures HoldsFrom(bytes, pc + code[0].Size(), code[1..])
  {
    var all, tail := Flatten(code), Flatten(code[1..]);
    var size := code[0].Size();
    assert |all| == size + |tail| && all[0] == code[0].op;
    assert bytes[pc + 0] == all[0];
    forall j | 0 <= j < |tail| ensures bytes[pc + size + j] == tail[j] {
      assert bytes[pc + (size + j)] == all[size + j] == tail[j];
    }
  }

  /** These are the sizes that these bytes call for. */
  ghost predicate SizesFit(sizes: seq<Size>, bytes: seq<Byte>) {
    && |sizes| == |bytes|
    && forall i | 0 <= i < |bytes| :: sizes[i] == 1 + PushSize(bytes[i])
  }

  lemma {:induction false} SizesOfHex(bytes: seq<Byte>)
    ensures SizesFit(SizesOf(BytesHex(bytes)), bytes)
  {
    forall i | 0 <= i < |bytes| ensures SizeAt(BytesHex(bytes), i) == 1 + PushSize(bytes[i]) {
      HexOfByteAt(bytes, i);
    }
  }

  lemma {:induction false} SweepUndoesAssemble(sizes: seq<Size>, bytes: seq<Byte>, pc: nat, code: seq<Instruction>)
    requires Assembled(code) && SizesFit(sizes, bytes) && HoldsFrom(bytes, pc, code)
    ensures StartsFrom(sizes, pc) == Offsets(code, pc)
    decreases |code|
  {
    if code != [] {
      HoldsFromNext(bytes, pc, code);
      SweepUndoesAssemble(sizes, bytes, pc + code[0].Size(), code[1..]);
      SweepTail(sizes, pc, code);
    }
  }

  /** After the first instruction the sweep goes on, also where a cut-off immediate ends the text. */
  lemma {:induction false} SweepTail(sizes: seq<Size>, pc: nat, code: seq<Instruction>)
    requires code != [] && Assembled(code) && pc < |sizes|
    requires sizes[pc] == 1 + PushSize(code[0].op)
    requires |code| == 1 ==> |sizes| == pc + code[0].Size()
    requires StartsFrom(sizes, pc + code[0].Size()) == Offsets(code[1..], pc + code[0].Size())
    ensures StartsFrom(sizes, pc) == Offsets(code, pc)
  {
    FirstSize(code);
    StartsFirst(sizes, pc, pc + code[0].Size());
    OffsetsFirst(code, pc);
  }

  lemma {:induction false} StartsFirst(sizes: seq<Size>, pc: nat, end: nat)
    requires pc < |sizes| && (pc + sizes[pc] == end || |sizes| <= end <= pc + sizes[pc])
    ensures StartsFrom(sizes, pc) == [pc] + StartsFrom(sizes, end)
  {
    if pc + sizes[pc] != end {
      assert StartsFrom(sizes, pc + sizes[pc]) == [] == StartsFrom(sizes, end);
    }
  }

  lemma {:induction false} OffsetsFirst(code: seq<Instruction>, base: nat)
    requires code != []
    ensures Offsets(code, base) == [base] + Offsets(code[1..], base + code[0].Size())
  {}

  lemma {:induction false} FirstSize(code: seq<Instruction>)
    requires code != [] && Assembled(code)
    ensures code[0].Size() <= 1 + PushSize(code[0].op)
    ensures |code| > 1 ==> code[0].Size() == 1 + PushSize(code[0].op)
  {}

  lemma {:induction false} StartsOfAssembled(code: seq<Instruction>)
    requires Assembled(code)
    ensures Starts(Assemble(code)) == Offsets(code, 0)
  {
    SizesOfHex(Flatten(code));
    SweepUndoesAssemble(SizesOf(Assemble(code)), Flatten(code), 0, code);
  }

  /** For any instruction list: the table's keys are exactly the instruction offsets, numbered in
      order. */
  lemma {:induction false} MappingOfAssembled(code: seq<Instruction>)
    requires Assembled(code)
    ensures Increasing(Offsets(code, 0))
    ensures Numbers(PcToInstruction(Assemble(code)), Offsets(code, 0))
  {
    StartsOfAssembled(code);
    MappingNumbersStarts(Assemble(code));
  }

  lemma {:induction false} ImmediatesAreNoKeys(code: seq<Instruction>, k: nat, pc: nat)
    requires Assembled(code) && k < |code|
    requires Offsets(code, 0)[k] < pc < Offsets(code, 0)[k] + code[k].Size()
    ensures pc !in PcToInstruction(Assemble(code))
  {
    MappingOfAssembled(code);
    if k + 1 < |code| {
      OffsetsAdjacent(code, 0, k + 1);
    }
    NoneBetween(Offsets(code, 0), k, pc);
  }

  // ---------------------------------------------------------------------------------------------
  // Any bytes are some instruction list, so nothing that follows a code escapes these theorems.

  /** Where the first instruction ends. */
  function FirstEnd(bytes: seq<Byte>): (end: nat)
    requires bytes != []
    ensures 0 < end <= |bytes|
  {
    var size := 1 + PushSize(bytes[0]);
    if size < |bytes| then size else |bytes|
  }

  function Disassembled(bytes: seq<Byte>): (code: seq<Instruction>)
    ensures code == [] <==> bytes == []
  {
    if bytes == [] then []
    else
      var end := FirstEnd(bytes);
      [Instruction(bytes[0], bytes[1..end])] + Disassembled(bytes[end..])
  }

  lemma {:induction false} AssembledCons(head: Instruction, tail: seq<Instruction>)
    requires Assembled(tail) && |head.immediate| <= PushSize(head.op)
    requires tail != [] ==> |head.immediate| == PushSize(head.op)
    ensures Assembled([head] + tail)
    ensures Flatten([head] + tail) == [head.op] + head.immediate + Flatten(tail)
  {
    assert ([head] + tail)[1..] == tail;
  }

  lemma {:induction false} CutFirst(bytes: seq<Byte>, end: nat)
    requires 0 < end <= |bytes|
    ensures [bytes[0]] + bytes[1..end] + bytes[end..] == bytes
  {}

  lemma {:induction false} DisassembledAgain(bytes: seq<Byte>)
    ensures Assembled(Disassembled(bytes)) && Flatten(Disassembled(bytes)) == bytes
  {
    if bytes != [] {
      var end := FirstEnd(bytes);
      DisassembledAgain(bytes[end..]);
      AssembledCons(Instruction(bytes[0], bytes[1..end]), Disassembled(bytes[end..]));
      CutFirst(bytes, end);
    }
  }

  /** Instructions with all of their immediates, the last one included. */
  ghost predicate Whole(code: seq<Instruction>) {
    forall k | 0 <= k < |code| :: |code[k].immediate| == PushSize(code[k].op)
  }

  lemma {:induction false} FlattenConcat(x: seq<Instruction>, y: seq<Instruction>)
    ensures Flatten(x + y) == Flatten(x) + Flatten(y)
  {
    if x == [] {
      assert x + y == y;
    } else {
      var head := [x[0].op] + x[0].immediate;
      FlattenConcat(x[1..], y);
      assert (x + y)[1..] == x[1..] + y;
      assert Flatten(x + y) == head + (Flatten(x[1..]) + Flatten(y));
      ConcatAssociates(head, Flatten(x[1..]), Flatten(y));
    }
  }

  lemma {:induction false} OffsetsPrefix(x: seq<Instruction>, y: seq<Instruction>, base: nat, k: nat)
    requires k < |x|
    ensures Offsets(x + y, base)[k] == Offsets(x, base)[k]
  {
    if k > 0 {
      OffsetsPrefix(x[1..], y, base + x[0].Size(), k - 1);
      assert (x + y)[1..] == x[1..] + y;
    }
  }

  /** Code with data behind it (metadata, or the runtime code behind a constructor) is longer code. */
  lemma {:induction false} DataBehindCode(code: seq<Instruction>, data: seq<Byte>)
    requires Whole(code)
    ensures Assembled(code + Disassembled(data))
    ensures Flatten(code + Disassembled(data)) == Flatten(code) + data
  {
    DisassembledAgain(data);
    FlattenConcat(code, Disassembled(data));
  }

  lemma {:induction false} NoneBetween(offsets: seq<nat>, k: nat, pc: nat)
    requires k < |offsets| && offsets[k] < pc && (k + 1 < |offsets| ==> pc < offsets[k + 1])
    requires Increasing(offsets)
    ensures pc !in offsets
  {
    forall j | 0 <= j < |offsets| ensures offsets[j] != pc {
      assert k + 1 < j ==> offsets[k + 1] < offsets[j];
    }
  }

  // ---------------------------------------------------------------------------------------------
  // The opcodes with immediates, by number.

  /** PUSH1 to PUSH32 are the opcodes 0x60 to 0x7f, each with as many bytes as its name says. */
  lemma {:induction false} PushByName(op: int, n: int)
    ensures 1 <= n <= 32 && op == 0x5f + n ==> PushSize(op) == n
    ensures op < 0x60 || 0x7f < op ==> PushSize(op) == 0
  {}

  /** What the sweep does at any two characters of any text: as parseInt reads them. */
  lemma {:induction false} SizeByParseInt(code: string, pc: nat, n: int)
    requires 2 * pc < |code|
    ensures var byte := ParseInt16(if 2 * pc + 1 < |code| then code[2 * pc..2 * pc + 2] else code[2 * pc..]);
            && (1 <= n <= 32 && byte == Some(0x5f + n) ==> SizeAt(code, pc) == 1 + n)
            && (byte.None? || byte.value < 0x60 || 0x7f < byte.value ==> SizeAt(code, pc) == 1)
  {
    if 2 * pc + 1 < |code| {
      assert code[2 * pc..2 * pc + 2] == [code[2 * pc], code[2 * pc + 1]];
      ParseHexPairIsParseInt(code[2 * pc], Some(code[2 * pc + 1]));
    } else {
      assert code[2 * pc..] == [code[2 * pc]];
      ParseHexPairIsParseInt(code[2 * pc], None);
    }
  }
}
