/** From a program counter to a source line: the per-contract tables and how they are read. */
module Lookup {
  import opened Wrappers
  import opened Trace

  /** A JavaScript number as `Number(text)` yields it, as far as source maps need it. */
  datatype Num = NaN | Int(value: int)

  /** One expanded source-map section: offset, length, file and jump kind. */
  datatype Entry = Entry(s: Num, l: Num, f: Num, j: Option<string>)

  /** The two tables of one bytecode; absent when the contract has no code or no known source. */
  datatype Code = Code(pcToIdx: Option<map<nat, nat>>, sourceMap: Option<seq<Entry>>)

  datatype ContractCode = ContractCode(runtime: Code, construction: Code)

  /** `NoTables` is the null result, `Synthetic` an instruction with file -1. */
  datatype SourceInfo =
    | NoTables
    | Synthetic(offset: Num, length: Num)
    | Located(sourceId: Num, offset: Num, length: Num)

  /** Failure is the TypeError of destructuring a source-map entry that is not there. */
  function GetSourceInfo(code: ContractCode, isConstructionCall: bool, pc: nat): Result<SourceInfo> {
    var Code(pcToIdx, sourceMap) := if isConstructionCall then code.construction else code.runtime;
    if pcToIdx.None? || sourceMap.None? then
      Success(NoTables)
    else if pc !in pcToIdx.value || |sourceMap.value| <= pcToIdx.value[pc] then
      Failure
    else
      var Entry(offset, length, sourceId, _) := sourceMap.value[pcToIdx.value[pc]];
      Success(if sourceId == Int(-1) then Synthetic(offset, length) else Located(sourceId, offset, length))
  }

  /** What is known of a source file: whether the user skips it, and its line table if its text
      was found. */
  datatype SourceFile = SourceFile(skip: bool, lineOffsets: Option<seq<nat>>)

  /** The world outside the trace: contract code by address, source files by id, and the library's
      search for the line closest to an offset. */
  datatype Env = Env(
    code: map<Address, ContractCode>,
    file: map<Num, SourceFile>,
    closest: (seq<nat>, Num) -> nat)
  {
    /** An address without code, or whose code matches no compiled contract, has no tables. */
    function CodeAt(a: Address): ContractCode {
      if a in code then code[a] else ContractCode(Code(None, None), Code(None, None))
    }

    /** A source id without a file name has no text, and is not skipped. */
    function FileOf(s: Num): SourceFile {
      if s in file then file[s] else SourceFile(false, None)
    }
  }

  /** Which code a frame runs: the called address, and whether it is being constructed. */
  datatype FrameId = FrameId(target: Address, isConstructionCall: bool)

  /** Where gas of one instruction belongs; both fields are null without a known source. */
  datatype Place = Place(source: Option<Num>, line: Option<nat>, isSynthOp: bool)

  function Locate(env: Env, who: FrameId, pc: nat): Result<Place> {
    match GetSourceInfo(env.CodeAt(who.target), who.isConstructionCall, pc)
    case Failure => Failure
    case Success(NoTables) => Success(Place(None, None, false))
    case Success(Synthetic(_, _)) => Success(Place(None, None, true))
    case Success(Located(sourceId, offset, _)) =>
      var lineOffsets := env.FileOf(sourceId).lineOffsets;
      Success(Place(
        Some(sourceId),
        if lineOffsets.Some? then Some(env.closest(lineOffsets.value, offset)) else None,
        false))
  }
}
