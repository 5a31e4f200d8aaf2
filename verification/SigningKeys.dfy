/** Removing a range of signing keys: the client removes one key per transaction, from the highest
    index down, from a registry that fills each hole with the operator's last key. */
module SigningKeys {
  import opened Wrappers
  import opened Text

  datatype Key = Key(pubkey: string, signature: string)

  datatype Operator = Operator(rewardAddress: string, keys: seq<Key>, usedKeys: nat, stakingLimit: nat)

  predicate AddressEqual(a: string, b: string) {
    Lower(a) == Lower(b)
  }

  /** Addresses are compared up to the case of letters. */
  lemma {:induction false} AddressEqualIff(a: string, b: string)
    ensures AddressEqual(a, b) <==> SameText(a, b)
  {
    LowerEqualIff(a, b);
  }

  // ---------------------------------------------------------------------------------------------
  // The registry contract.

  /** The last key moves into the hole. */
  function WithoutKey<T>(keys: seq<T>, index: nat): (rest: seq<T>)
    requires index < |keys|
    ensures |rest| == |keys| - 1
  {
    var last := |keys| - 1;
    if index < last then keys[index := keys[last]][..last] else keys[..last]
  }

  /** A key that was approved is no longer. */
  function Removed(op: Operator, index: nat): (next: Operator)
    requires index < |op.keys|
    ensures |next.keys| == |op.keys| - 1
  {
    op.(keys := WithoutKey(op.keys, index), stakingLimit := Limit(op, index))
  }

  /** What a removal leaves of the staking limit. */
  function Limit(op: Operator, index: nat): nat {
    if index < op.stakingLimit then index else op.stakingLimit
  }

  /** Neither missing nor already used. */
  predicate Removable(op: Operator, index: int) {
    op.usedKeys <= index < |op.keys|
  }

  class NodeOperatorsRegistry {
    var operators: seq<Operator>
    var keysOpIndex: nat

    /** A transaction: it reverts without effect when `ok` is false. */
    method RemoveSigningKeyOperatorBH(sender: string, operatorId: nat, index: int) returns (ok: bool)
      modifies this
      ensures ok <==> && operatorId < |old(operators)|
                      && SameText(sender, old(operators)[operatorId].rewardAddress)
                      && Removable(old(operators)[operatorId], index)
      ensures ok ==>
                && operators == old(operators)[operatorId := Removed(old(operators)[operatorId], index)]
                && keysOpIndex == old(keysOpIndex) + 1
      ensures !ok ==> operators == old(operators) && keysOpIndex == old(keysOpIndex)
    {
      if |operators| <= operatorId {
        return false;
      }
      AddressEqualIff(sender, operators[operatorId].rewardAddress);
      if !AddressEqual(sender, operators[operatorId].rewardAddress) {
        return false;
      }
      var op := operators[operatorId];
      if index < 0 || |op.keys| <= index || index < op.usedKeys {
        return false;
      }
      keysOpIndex := keysOpIndex + 1;
      var lastIndex := |op.keys| - 1;
      var keys := op.keys;
      if index < lastIndex {
        keys := keys[index := keys[lastIndex]];
      }
      op := op.(keys := keys[..lastIndex]);
      if index < op.stakingLimit {
        op := op.(stakingLimit := index);
      }
      operators := operators[operatorId := op];
      return true;
    }
  }

  // ---------------------------------------------------------------------------------------------
  // The client.

  /** The first operator paid at this address, as `findIndex` finds it. */
  function FindOperator(ops: seq<Operator>, address: string): (i: nat)
    ensures i <= |ops|
    ensures i < |ops| ==> AddressEqual(address, ops[i].rewardAddress)
  {
    if ops == [] || AddressEqual(address, ops[0].rewardAddress) then 0 else 1 + FindOperator(ops[1..], address)
  }

  /** Some operator is paid at this address, whatever the case of its letters. */
  ghost predicate HasOperator(ops: seq<Operator>, address: string) {
    exists j | 0 <= j < |ops| :: SameText(address, ops[j].rewardAddress)
  }

  /** This operator is the first one. */
  ghost predicate IsFirstOperator(ops: seq<Operator>, address: string, i: nat) {
    && i < |ops|
    && SameText(address, ops[i].rewardAddress)
    && forall j | 0 <= j < i :: !SameText(address, ops[j].rewardAddress)
  }

  lemma {:induction false} FoundOperatorIsFirst(ops: seq<Operator>, address: string)
    ensures var i := FindOperator(ops, address);
            if HasOperator(ops, address) then IsFirstOperator(ops, address, i) else i == |ops|
  {
    if ops != [] {
      AddressEqualIff(address, ops[0].rewardAddress);
      if !AddressEqual(address, ops[0].rewardAddress) {
        FoundOperatorIsFirst(ops[1..], address);
        FirstOfTail(ops, address, FindOperator(ops[1..], address));
      }
    }
  }

  lemma {:induction false} FirstOfTail(ops: seq<Operator>, address: string, i: nat)
    requires ops != [] && !SameText(address, ops[0].rewardAddress)
    ensures HasOperator(ops, address) <==> HasOperator(ops[1..], address)
    ensures IsFirstOperator(ops[1..], address, i) ==> IsFirstOperator(ops, address, i + 1)
  {
    if j :| 0 <= j < |ops| && SameText(address, ops[j].rewardAddress) {
      assert ops[1..][j - 1] == ops[j];
    }
    if j :| 0 <= j < |ops[1..]| && SameText(address, ops[1..][j].rewardAddress) {
      assert ops[j + 1] == ops[1..][j];
    }
    if IsFirstOperator(ops[1..], address, i) {
      forall j | 0 <= j < i + 1 ensures !SameText(address, ops[j].rewardAddress) {
        assert j > 0 ==> ops[j] == ops[1..][j - 1];
      }
    }
  }

  /** An operator after the keys at `high`, `high`-1, ..., `low` have been removed in that order. */
  function RemovedDown(op: Operator, high: int, low: int): Operator
    requires high < |op.keys|
    requires low <= high ==> 0 <= low
    decreases high - low
  {
    if high < low then op else RemovedDown(Removed(op, high), high - 1, low)
  }

  function Max(a: int, b: int): int {
    if a < b then b else a
  }

  /** What one call of the client comes to. All removals above the used keys happen, unless the
      very first one is out of range; the call fails if it asks for a used or missing key. */
  ghost predicate RemovesRange(before: seq<Operator>, after: seq<Operator>, ops: int,
                               id: nat, start: int, end: int, ok: bool)
    requires id < |before|
  {
    var op := before[id];
    var low := Max(start, op.usedKeys);
    if end < |op.keys| then
      && after == before[id := RemovedDown(op, end, low)]
      && ops == Max(0, end - low + 1)
      && (ok <==> end < start || op.usedKeys <= start)
    else
      after == before && ops == 0 && (ok <==> end < start)
  }

  method RemoveSigningKeys(registry: NodeOperatorsRegistry, fromAddr: string, startKeyIndex: int, endKeyIndex: int)
    returns (results: Result<seq<int>>)
    modifies registry
    ensures !HasOperator(old(registry.operators), fromAddr) ==> results.Failure? && unchanged(registry)
    ensures HasOperator(old(registry.operators), fromAddr) ==>
              var id := FindOperator(old(registry.operators), fromAddr);
              && IsFirstOperator(old(registry.operators), fromAddr, id)
              && RemovesRange(old(registry.operators), registry.operators,
                   registry.keysOpIndex - old(registry.keysOpIndex), id, startKeyIndex, endKeyIndex, results.Success?)
    ensures results.Success? && startKeyIndex <= endKeyIndex ==> |results.value| == endKeyIndex - startKeyIndex + 1
    ensures results.Success? ==> forall k | 0 <= k < |results.value| :: results.value[k] == endKeyIndex - k
  {
    FoundOperatorIsFirst(registry.operators, fromAddr);
    var opIndex := FindOperator(registry.operators, fromAddr);
    if opIndex == |registry.operators| {
      return Failure;
    }
    ghost var before := registry.operators;
    var removed := [];
    var keyIndex := endKeyIndex;
    while keyIndex >= startKeyIndex
      invariant keyIndex <= endKeyIndex && |removed| == endKeyIndex - keyIndex
      invariant startKeyIndex <= endKeyIndex ==> startKeyIndex - 1 <= keyIndex
      invariant registry.keysOpIndex - old(registry.keysOpIndex) == |removed|
      invariant forall k | 0 <= k < |removed| :: removed[k] == endKeyIndex - k
      invariant RemovedSoFar(before, registry.operators, opIndex, startKeyIndex, endKeyIndex, keyIndex)
    {
      ghost var now := registry.operators;
      assert now[opIndex].rewardAddress == before[opIndex].rewardAddress;
      var ok := registry.RemoveSigningKeyOperatorBH(fromAddr, opIndex, keyIndex);
      if !ok {
        RangeRefused(before, now, opIndex, startKeyIndex, endKeyIndex, keyIndex);
        return Failure;
      }
      RemovedOneMore(before, now, opIndex, startKeyIndex, endKeyIndex, keyIndex);
      removed := removed + [keyIndex];
      keyIndex := keyIndex - 1;
    }
    RangeDone(before, registry.operators, opIndex, startKeyIndex, endKeyIndex, keyIndex);
    return Success(removed);
  }

  /** The keys above `keyIndex` are gone, and what is left to remove completes the whole range. */
  ghost predicate RemovedSoFar(before: seq<Operator>, now: seq<Operator>, id: nat, start: int, end: int, keyIndex: int)
    requires id < |before|
  {
    && |now| == |before|
    && now == before[id := now[id]]
    && now[id].usedKeys == before[id].usedKeys
    && now[id].rewardAddress == before[id].rewardAddress
    && (keyIndex == end ==> now[id] == before[id])
    && (keyIndex < end ==> before[id].usedKeys <= keyIndex + 1 && start <= keyIndex + 1 && end < |before[id].keys|)
    && (end < |before[id].keys| ==>
          && keyIndex < |now[id].keys|
          && RemovedDown(before[id], end, Max(start, before[id].usedKeys))
             == RemovedDown(now[id], keyIndex, Max(start, before[id].usedKeys)))
  }

  lemma {:induction false} RemovedOneMore(before: seq<Operator>, now: seq<Operator>, id: nat, start: int, end: int,
                                          keyIndex: int)
    requires id < |before| && start <= keyIndex <= end && RemovedSoFar(before, now, id, start, end, keyIndex)
    requires Removable(now[id], keyIndex)
    ensures RemovedSoFar(before, now[id := Removed(now[id], keyIndex)], id, start, end, keyIndex - 1)
  {}

  lemma {:induction false} RangeRefused(before: seq<Operator>, now: seq<Operator>, id: nat, start: int, end: int,
                                        keyIndex: int)
    requires id < |before| && start <= keyIndex <= end && RemovedSoFar(before, now, id, start, end, keyIndex)
    requires !Removable(now[id], keyIndex)
    ensures RemovesRange(before, now, end - keyIndex, id, start, end, false)
  {}

  lemma {:induction false} RangeDone(before: seq<Operator>, now: seq<Operator>, id: nat, start: int, end: int,
                                     keyIndex: int)
    requires id < |before| && keyIndex <= end && RemovedSoFar(before, now, id, start, end, keyIndex)
    requires keyIndex < start && (start <= end ==> keyIndex == start - 1)
    ensures RemovesRange(before, now, end - keyIndex, id, start, end, true)
  {}

  // ---------------------------------------------------------------------------------------------
  // What is left.

  /** The last element moves to the front. */
  function Rotated<T>(s: seq<T>): seq<T> {
    if s == [] then [] else [s[|s| - 1]] + s[..|s| - 1]
  }

  function RotatedBy<T>(s: seq<T>, n: nat): seq<T>
    decreases n
  {
    if n == 0 then s else Rotated(RotatedBy(s, n - 1))
  }

  lemma {:induction false} RotatedFirst<T>(s: seq<T>, n: nat)
    ensures RotatedBy(Rotated(s), n) == RotatedBy(s, n + 1)
    decreases n
  {
    if n > 0 {
      RotatedFirst(s, n - 1);
      assert RotatedBy(Rotated(s), n) == Rotated(RotatedBy(Rotated(s), n - 1));
    }
    assert RotatedBy(s, n + 1) == Rotated(RotatedBy(s, n));
  }

  lemma {:induction false} RotatedTwice<T>(s: seq<T>, m: nat, n: nat)
    ensures RotatedBy(s, m + n) == RotatedBy(RotatedBy(s, m), n)
    decreases n
  {
    if n > 0 {
      RotatedTwice(s, m, n - 1);
    }
  }

  lemma {:induction false} RotatedOnce<T>(s: seq<T>, r: nat)
    requires r <= |s|
    ensures RotatedBy(s, r) == s[|s| - r..] + s[..|s| - r]
    decreases r
  {
    if r > 0 {
      RotatedOnce(s, r - 1);
      RotatedCut(s, r);
    } else {
      assert s[|s|..] + s[..|s|] == s;
    }
  }

  lemma {:induction false} RotatedCut<T>(s: seq<T>, r: nat)
    requires 0 < r <= |s|
    ensures Rotated(s[|s| - (r - 1)..] + s[..|s| - (r - 1)]) == s[|s| - r..] + s[..|s| - r]
  {}

  lemma {:induction false} FullTurn<T>(s: seq<T>)
    ensures RotatedBy(s, |s|) == s
  {
    RotatedOnce(s, |s|);
    assert s[0..] + s[..0] == s;
  }

  /** What a rotation comes to: cut off the last `r` elements and put them in front, where `r` is
      the number of rotations less any full turns. */
  lemma {:induction false} RotationIsCut<T>(s: seq<T>, n: nat, turns: nat, r: nat)
    requires r < |s| && n == turns * |s| + r
    ensures RotatedBy(s, n) == s[|s| - r..] + s[..|s| - r]
    decreases turns
  {
    if turns > 0 {
      OneTurnLess(turns, |s|, n, r);
      RotatedTwice(s, |s|, n - |s|);
      FullTurn(s);
      RotationIsCut(s, n - |s|, turns - 1, r);
    } else {
      RotatedOnce(s, r);
    }
  }

  lemma {:induction false} OneTurnLess(turns: nat, m: nat, n: nat, r: nat)
    requires 0 < turns && n == turns * m + r
    ensures m <= n && n - m == (turns - 1) * m + r
  {
    assert turns * m == (turns - 1) * m + m;
  }

  lemma {:induction false} WithoutKeyAt<T>(below: seq<T>, x: T, above: seq<T>)
    ensures WithoutKey(below + [x] + above, |below|) == below + Rotated(above)
  {
    var keys := below + [x] + above;
    var last := |keys| - 1;
    if above == [] {
      assert keys[..last] == below;
    } else {
      assert keys[|below| := keys[last]][..last] == below + ([above[|above| - 1]] + above[..|above| - 1]);
    }
  }

  /** The keys at `high`, ..., `low` removed in that order. */
  function KeysDown<T>(keys: seq<T>, high: int, low: int): seq<T>
    requires high < |keys|
    requires low <= high ==> 0 <= low
    decreases high - low
  {
    if high < low then keys else KeysDown(WithoutKey(keys, high), high - 1, low)
  }

  lemma {:induction false} RemovedDownIsKeysDown(op: Operator, high: int, low: int)
    requires 0 <= low <= high < |op.keys|
    ensures RemovedDown(op, high, low)
            == op.(keys := KeysDown(op.keys, high, low), stakingLimit := Limit(op, low))
    decreases high - low
  {
    if low < high {
      RemovedDownIsKeysDown(Removed(op, high), high - 1, low);
    }
  }

  /** Removing a range between two parts, from its end down, rotates the part above it. */
  lemma {:induction false} KeysDownParts<T>(keys: seq<T>, high: int, below: seq<T>, range: seq<T>, above: seq<T>)
    requires keys == below + range + above && high == |below| + |range| - 1
    ensures KeysDown(keys, high, |below|) == below + RotatedBy(above, |range|)
    decreases |range|
  {
    if range == [] {
      assert keys == below + above;
    } else {
      var n := |range| - 1;
      TakeLast(below, range, above);
      var next := KeysDownFirst(keys, high, below, range[..n], range[n], above);
      KeysDownParts(next, high - 1, below, range[..n], Rotated(above));
      RotatedFirst(above, n);
    }
  }

  lemma {:induction false} KeysDownFirst<T>(keys: seq<T>, high: int, below: seq<T>, front: seq<T>, x: T, above: seq<T>)
    returns (next: seq<T>)
    requires keys == (below + front) + [x] + above && high == |below| + |front|
    ensures next == below + front + Rotated(above)
    ensures KeysDown(keys, high, |below|) == KeysDown(next, high - 1, |below|)
  {
    WithoutKeyAt(below + front, x, above);
    next := WithoutKey(keys, high);
  }

  lemma {:induction false} TakeLast<T>(below: seq<T>, range: seq<T>, above: seq<T>)
    requires range != []
    ensures below + range + above == (below + range[..|range| - 1]) + [range[|range| - 1]] + above
  {
    assert range == range[..|range| - 1] + [range[|range| - 1]];
  }

  lemma {:induction false} RemovedLayout(op: Operator, index: nat)
    requires index < |op.keys|
    ensures Removed(op, index).keys == op.keys[..index] + Rotated(op.keys[index + 1..])
  {
    CutAt(op.keys, index);
    WithoutKeyAt(op.keys[..index], op.keys[index], op.keys[index + 1..]);
  }

  lemma {:induction false} CutAt<T>(s: seq<T>, index: nat)
    requires index < |s|
    ensures s == s[..index] + [s[index]] + s[index + 1..]
  {}

  /** The exact outcome: the keys below the range stay where they are, and the keys above it move
      down, rotated once per removed key. The staking limit drops to the range if it reached in. */
  ghost predicate IsRangeRemoved(op: Operator, high: nat, low: nat, after: Operator)
    requires low <= high < |op.keys|
  {
    && after.keys == op.keys[..low] + RotatedBy(op.keys[high + 1..], high - low + 1)
    && after.stakingLimit == (if low < op.stakingLimit then low else op.stakingLimit)
    && after.rewardAddress == op.rewardAddress
    && after.usedKeys == op.usedKeys
  }

  lemma {:induction false} RemovedDownLayout(op: Operator, high: nat, low: nat)
    requires low <= high < |op.keys|
    ensures IsRangeRemoved(op, high, low, RemovedDown(op, high, low))
  {
    RemovedDownIsKeysDown(op, high, low);
    KeysDownSlices(op.keys, high, low);
  }

  lemma {:induction false} KeysDownSlices<T>(keys: seq<T>, high: nat, low: nat)
    requires low <= high < |keys|
    ensures KeysDown(keys, high, low) == keys[..low] + RotatedBy(keys[high + 1..], high - low + 1)
  {
    CutInThree(keys, low, high + 1);
    KeysDownFor(keys, high, low, high - low + 1, keys[..low], keys[low..high + 1], keys[high + 1..]);
  }

  lemma {:induction false} KeysDownFor<T>(keys: seq<T>, high: nat, low: nat, n: nat, below: seq<T>, range: seq<T>,
                                          above: seq<T>)
    requires keys == below + range + above && |below| == low && |range| == n && high == low + n - 1
    ensures high < |keys| || n == 0
    ensures n > 0 ==> KeysDown(keys, high, low) == below + RotatedBy(above, n)
  {
    if n > 0 {
      KeysDownParts(keys, high, below, range, above);
    }
  }

  lemma {:induction false} CutInThree<T>(s: seq<T>, from: nat, to: nat)
    requires from <= to <= |s|
    ensures s == s[..from] + s[from..to] + s[to..]
  {}

  lemma {:induction false} RotatedKeeps<T>(s: seq<T>)
    ensures |Rotated(s)| == |s| && multiset(Rotated(s)) == multiset(s)
  {
    if s != [] {
      assert s == s[..|s| - 1] + [s[|s| - 1]];
    }
  }

  lemma {:induction false} RotatedByKeeps<T>(s: seq<T>, n: nat)
    ensures |RotatedBy(s, n)| == |s| && multiset(RotatedBy(s, n)) == multiset(s)
    decreases n
  {
    if n > 0 {
      RotatedByKeeps(s, n - 1);
      RotatedKeeps(RotatedBy(s, n - 1));
    }
  }

  /** Exactly the keys of the range are gone, counting repetitions. */
  lemma {:induction false} RemovedDownKeys(op: Operator, high: nat, low: nat)
    requires low <= high < |op.keys|
    ensures multiset(RemovedDown(op, high, low).keys) == multiset(op.keys) - multiset(op.keys[low..high + 1])
  {
    RemovedDownIsKeysDown(op, high, low);
    CutInThree(op.keys, low, high + 1);
    PartsGone(op.keys, high, op.keys[..low], op.keys[low..high + 1], op.keys[high + 1..]);
  }

  lemma {:induction false} PartsGone<T>(keys: seq<T>, high: int, below: seq<T>, range: seq<T>, above: seq<T>)
    requires keys == below + range + above && high == |below| + |range| - 1
    ensures multiset(KeysDown(keys, high, |below|)) == multiset(keys) - multiset(range)
  {
    KeysDownParts(keys, high, below, range, above);
    RotatedByKeeps(above, |range|);
    CutOut(below, range, above, RotatedBy(above, |range|));
  }

  lemma {:induction false} CutOut<T>(below: seq<T>, range: seq<T>, above: seq<T>, rotated: seq<T>)
    requires multiset(rotated) == multiset(above)
    ensures multiset(below + rotated) == multiset(below + range + above) - multiset(range)
  {}

  /** What a call of the client leaves, key by key, if its range ends at an existing key and starts at
      or before it: the unused keys of the range are gone, one transaction each, what is below them
      has not moved, and the call succeeds exactly if no key of the range was used. */
  lemma {:induction false} RangeOutcome(before: seq<Operator>, after: seq<Operator>, ops: int, id: nat, start: int,
                                        end: int, ok: bool)
    requires id < |before| && RemovesRange(before, after, ops, id, start, end, ok)
    requires start <= end < |before[id].keys| && before[id].usedKeys <= end
    ensures var op, low := before[id], if start < before[id].usedKeys then before[id].usedKeys else start;
            && ops == end - low + 1
            && (ok <==> op.usedKeys <= start)
            && |after| == |before|
            && (forall j | 0 <= j < |before| && j != id :: after[j] == before[j])
            && |after[id].keys| == |op.keys| - ops
            && multiset(after[id].keys) == multiset(op.keys) - multiset(op.keys[low..end + 1])
            && after[id].keys[..low] == op.keys[..low]
            && after[id].stakingLimit == (if low < op.stakingLimit then low else op.stakingLimit)
            && after[id].usedKeys == op.usedKeys
  {
    var op, low := before[id], if start < before[id].usedKeys then before[id].usedKeys else start;
    var left := RemovedDown(op, end, low);
    assert after == before[id := left];
    RemovedDownKeys(op, end, low);
    RemovedDownLayout(op, end, low);
    LayoutSize(op, end, low, left);
  }

  lemma {:induction false} LayoutSize(op: Operator, high: nat, low: nat, after: Operator)
    requires low <= high < |op.keys| && IsRangeRemoved(op, high, low, after)
    ensures |after.keys| == |op.keys| - (high - low + 1) && after.keys[..low] == op.keys[..low]
  {
    RotatedByKeeps(op.keys[high + 1..], high - low + 1);
  }

  /** Beyond the last key, or among used keys only, nothing is removed and the call fails; an empty
      range succeeds. */
  lemma {:induction false} NoRangeOutcome(before: seq<Operator>, after: seq<Operator>, ops: int, id: nat, start: int,
                                          end: int, ok: bool)
    requires id < |before| && RemovesRange(before, after, ops, id, start, end, ok)
    requires end < start || |before[id].keys| <= end || end < before[id].usedKeys
    ensures after == before && ops == 0 && (ok <==> end < start)
  {
    if end < |before[id].keys| {
      assert RemovedDown(before[id], end, Max(start, before[id].usedKeys)) == before[id];
    }
  }
}
