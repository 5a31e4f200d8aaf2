/** Key batches: keys are joined into one hex text to be submitted, and split again to be read. */
module KeyBatch {
  import opened Wrappers
  import opened Hex
  import opened Messages
  import opened Sequences
  import opened Text

  function Map0x(keys: seq<string>): (r: seq<string>)
    ensures |r| == |keys| && forall k | 0 <= k < |keys| :: r[k] == "0x" + keys[k]
  {
    if keys == [] then [] else ["0x" + keys[0]] + Map0x(keys[1..])
  }

  function Stripped(keys: seq<string>): (r: seq<string>)
    ensures |r| == |keys| && forall k | 0 <= k < |keys| :: r[k] == Strip0x(keys[k])
  {
    if keys == [] then [] else [Strip0x(keys[0])] + Stripped(keys[1..])
  }

  function FormatKeys(keys: seq<string>): string {
    "0x" + Concat(keys)
  }

  predicate IsHexadecimal(s: string, length: nat) {
    length > 0 && |s| == length && forall c | c in s :: IsHexDigit(c)
  }

  /** A text cut into pieces of `len` characters, each with the prefix put back. */
  function Segments(s: string, len: nat): seq<string>
    requires len > 0
  {
    if |s| < len then [] else ["0x" + s[..len]] + Segments(s[len..], len)
  }

  /** `None` is the failed assertion; dividing by zero bytes fails it too. */
  function Splits(hexStr: string, lenBytes: nat): Option<seq<string>> {
    var s := Strip0x(hexStr);
    if lenBytes > 0 && |s| % (lenBytes * 2) == 0 then Some(Segments(s, lenBytes * 2)) else None
  }

  lemma {:induction false} SegmentsFrom(s: string, pos: nat, len: nat)
    requires len > 0 && pos + len <= |s|
    ensures Segments(s[pos..], len) == ["0x" + s[pos..pos + len]] + Segments(s[pos + len..], len)
  {
    assert s[pos..][..len] == s[pos..pos + len];
    assert s[pos..][len..] == s[pos + len..];
  }

  method HexSplit(hexStr: string, lenBytes: nat) returns (result: Option<seq<string>>)
    ensures result == Splits(hexStr, lenBytes)
  {
    var lenSymbols := lenBytes * 2;
    var s := Strip0x(hexStr);
    if lenSymbols == 0 || |s| % lenSymbols != 0 {
      return None;
    }
    var segs: seq<string> := [];
    var totalSegs := |s| / lenSymbols;
    ghost var pos := 0;
    assert s[0..] == s;
    for i := 0 to totalSegs
      invariant pos == lenSymbols * i && |s| - pos == lenSymbols * (totalSegs - i)
      invariant 0 <= pos <= |s|
      invariant segs + Segments(s[pos..], lenSymbols) == Segments(s, lenSymbols)
    {
      ProductStep(lenSymbols, totalSegs - i);
      ProductStep(lenSymbols, i + 1);
      SegmentsFrom(s, pos, lenSymbols);
      ConcatAssociates(segs, ["0x" + s[pos..pos + lenSymbols]], Segments(s[pos + lenSymbols..], lenSymbols));
      segs := segs + ["0x" + s[lenSymbols * i..lenSymbols * i + lenSymbols]];
      pos := pos + lenSymbols;
    }
    assert segs + [] == segs;
    return Some(segs);
  }

  /** The items from the `i`-th on, joined without their prefixes. */
  function JoinedFrom(items: seq<string>, i: nat): string
    requires i <= |items|
    decreases |items| - i
  {
    if i == |items| then "" else Strip0x(items[i]) + JoinedFrom(items, i + 1)
  }

  method HexConcat(first: string, rest: seq<string>) returns (result: string)
    ensures result == "0x" + (Strip0x(first) + JoinedFrom(rest, 0))
  {
    result := if |first| >= 2 && first[..2] == "0x" then first else "0x" + first;
    ghost var whole := "0x" + (Strip0x(first) + JoinedFrom(rest, 0));
    for i := 0 to |rest|
      invariant result + JoinedFrom(rest, i) == whole
    {
      result := result + Strip0x(rest[i]);
    }
  }

  lemma {:induction false} JoinedFromIsConcat(items: seq<string>, i: nat)
    requires i <= |items|
    ensures JoinedFrom(items, i) == Concat(Stripped(items[i..]))
    decreases |items| - i
  {
    if i < |items| {
      JoinedFromIsConcat(items, i + 1);
      assert items[i..][1..] == items[i + 1..];
      assert Stripped(items[i..]) == [Strip0x(items[i])] + Stripped(items[i + 1..]);
    }
  }

  // ---------------------------------------------------------------------------------------------
  // Splitting undoes joining.

  lemma {:induction false} SegmentsOfConcat(keys: seq<string>, len: nat)
    requires len > 0 && forall k | k in keys :: |k| == len
    ensures Segments(Concat(keys), len) == Map0x(keys)
  {
    if keys != [] {
      var key, rest := keys[0], Concat(keys[1..]);
      assert key in keys && Concat(keys) == key + rest;
      assert forall k | k in keys[1..] :: k in keys;
      SegmentsOfConcat(keys[1..], len);
      assert (key + rest)[..len] == key && (key + rest)[len..] == rest;
    }
  }

  lemma {:induction false} LengthOfConcat(keys: seq<string>, len: nat)
    requires forall k | k in keys :: |k| == len
    ensures |Concat(keys)| == len * |keys|
  {
    if keys != [] {
      assert keys[0] in keys;
      LengthOfConcat(keys[1..], len);
      ProductStep(len, |keys|);
    }
  }

  lemma {:induction false} ProductStep(len: int, n: int)
    ensures len * n == len * (n - 1) + len
    ensures 0 <= len && 1 <= n ==> len <= len * n
    ensures 0 <= len && n <= -1 ==> len * n <= -len
  {
    assert 0 <= len && 1 <= n ==> 0 <= len * (n - 1);
    assert 0 <= len && n <= -1 ==> 0 <= len * (-1 - n);
  }

  /** If every key passes the form's check, the submitted text splits into the same keys, in order. */
  lemma {:induction false} SplitUndoesFormat(keys: seq<string>, lenBytes: nat)
    requires forall k | k in keys :: IsHexadecimal(k, lenBytes * 2)
    requires lenBytes > 0
    ensures Splits(FormatKeys(keys), lenBytes) == Some(Map0x(keys))
  {
    assert FormatKeys(keys)[..2] == "0x" && Strip0x(FormatKeys(keys)) == Concat(keys);
    SegmentsOfConcat(keys, lenBytes * 2);
    LengthOfConcat(keys, lenBytes * 2);
    MultipleOf(|keys|, lenBytes * 2, |Concat(keys)|);
  }

  /** And the other way round: for every text and length, splitting loses nothing and cuts it into
      equal pieces. */
  lemma {:induction false} SplitLosesNothing(hexStr: string, lenBytes: nat)
    ensures Splits(hexStr, lenBytes).Some? ==> Rejoins(Splits(hexStr, lenBytes).value, Strip0x(hexStr), lenBytes * 2)
  {
    var s := Strip0x(hexStr);
    if lenBytes > 0 && |s| % (lenBytes * 2) == 0 {
      SegmentsRejoin(s, lenBytes * 2);
      var pieces := Segments(s, lenBytes * 2);
      var joined := Concat(Stripped(pieces));
      NoRemainder(|s|, lenBytes * 2, |pieces|, |s| - |joined|);
      assert s[..|joined|] == s;
    }
  }

  ghost predicate Rejoins(pieces: seq<string>, s: string, len: nat) {
    && Concat(Stripped(pieces)) == s
    && forall k | 0 <= k < |pieces| :: |pieces[k]| == 2 + len
  }

  /** Joining the pieces gives the text back up to a rest that is too short for another piece. */
  lemma {:induction false} SegmentsRejoin(s: string, len: nat)
    requires len > 0
    ensures var pieces := Segments(s, len);
            var joined := Concat(Stripped(pieces));
            && |joined| == len * |pieces|
            && |joined| <= |s| < |joined| + len
            && Rejoins(pieces, s[..|joined|], len)
  {
    if |s| >= len {
      var rest := s[len..];
      SegmentsRejoin(rest, len);
      var pieces := Segments(rest, len);
      var all := ["0x" + s[..len]] + pieces;
      ProductStep(len, |all|);
      assert ("0x" + s[..len])[..2] == "0x" && Strip0x("0x" + s[..len]) == s[..len];
      assert all[1..] == pieces;
      assert s[..len] + rest[..len * |pieces|] == s[..len * |all|];
    }
  }

  lemma {:induction false} NoRemainder(total: nat, len: nat, n: nat, rest: int)
    requires len > 0 && total % len == 0 && total == len * n + rest && 0 <= rest < len
    ensures rest == 0
  {
    var q := total / len;
    assert total == len * q;
    assert len * (q - n) == rest;
    ProductStep(len, q - n);
  }

  /** Joining with hexConcat instead gives the same text, since no such key starts with 0x. */
  lemma {:induction false} HexConcatIsFormat(keys: seq<string>, length: nat)
    requires keys != [] && forall k | k in keys :: IsHexadecimal(k, length)
    ensures "0x" + (Strip0x(keys[0]) + JoinedFrom(keys[1..], 0)) == FormatKeys(keys)
  {
    HexKeysArePlain(keys, length);
    JoinedFromIsConcat(keys[1..], 0);
    assert keys[1..][0..] == keys[1..] && Stripped(keys) == keys;
    assert Stripped(keys[1..]) == keys[1..];
  }

  lemma {:induction false} HexKeysArePlain(keys: seq<string>, length: nat)
    requires forall k | k in keys :: IsHexadecimal(k, length)
    ensures Stripped(keys) == keys
  {
    forall i | 0 <= i < |keys| ensures Strip0x(keys[i]) == keys[i] {
      assert keys[i] in keys;
      if |keys[i]| >= 2 {
        assert keys[i][1] in keys[i] && keys[i][..2][1] == keys[i][1];
      }
    }
  }

  lemma {:induction false} MultipleOf(n: nat, len: nat, total: nat)
    requires len > 0 && total == len * n
    ensures total % len == 0
  {
    var q, r := total / len, total % len;
    assert total == len * q + r;
    assert len * (n - q) == r;
    ProductStep(len, n - q);
  }

  // ---------------------------------------------------------------------------------------------
  // The library's own checks before it submits keys.

  const PUBKEY_DIGITS: nat := 96     // 48 bytes
  const SIGNATURE_DIGITS: nat := 192 // 96 bytes

  /** The batch passes the checks on its keys and signatures. */
  predicate Submits(pubkeys: seq<string>, signatures: seq<string>) {
    && |pubkeys| != 0
    && |signatures| == |pubkeys|
    && |Concat(Stripped(pubkeys))| == PUBKEY_DIGITS * |pubkeys|
    && |Concat(Stripped(signatures))| == SIGNATURE_DIGITS * |pubkeys|
  }

  lemma {:induction false} LengthAtMost(parts: seq<string>, len: nat)
    requires forall p | p in parts :: |p| <= len
    ensures |Concat(parts)| <= len * |parts|
    ensures |Concat(parts)| == len * |parts| ==> forall p | p in parts :: |p| == len
  {
    if parts != [] {
      assert parts[0] in parts;
      LengthAtMost(parts[1..], len);
      ProductStep(len, |parts|);
    }
  }

  ghost predicate AllOfLength(parts: seq<string>, len: nat) {
    forall p | p in parts :: |p| == len
  }

  ghost predicate NoneLonger(parts: seq<string>, len: nat) {
    forall p | p in parts :: |p| <= len
  }

  /** The total-length guard falls short of the check its message announces by exactly this: it does
      not see that a part is too long. */
  lemma {:induction false} GuardMeansEveryLength(parts: seq<string>, len: nat)
    ensures AllOfLength(parts, len) <==> |Concat(parts)| == len * |parts| && NoneLonger(parts, len)
  {
    if AllOfLength(parts, len) {
      LengthOfConcat(parts, len);
    } else if NoneLonger(parts, len) {
      LengthAtMost(parts, len);
    }
  }

  /** A batch that passes has whole keys and signatures exactly when none of them is too long, and
      every batch of whole keys and signatures passes. */
  lemma {:induction false} SubmitsWholeKeys(pubkeys: seq<string>, signatures: seq<string>)
    ensures Submits(pubkeys, signatures)
            && NoneLonger(Stripped(pubkeys), PUBKEY_DIGITS) && NoneLonger(Stripped(signatures), SIGNATURE_DIGITS)
            <==> |signatures| == |pubkeys| != 0
                 && AllOfLength(Stripped(pubkeys), PUBKEY_DIGITS) && AllOfLength(Stripped(signatures), SIGNATURE_DIGITS)
  {
    GuardMeansEveryLength(Stripped(pubkeys), PUBKEY_DIGITS);
    GuardMeansEveryLength(Stripped(signatures), SIGNATURE_DIGITS);
  }

  /** Such batches exist: a short key and a long one make up for each other. */
  lemma {:induction false} GuardMissesUnevenKeys()
    ensures exists pubkeys: seq<string>, signatures: seq<string> ::
              Submits(pubkeys, signatures) && |Strip0x(pubkeys[0])| != PUBKEY_DIGITS
  {
    var pubkeys := [Zeros(95), Zeros(97)];
    var signatures := [Zeros(192), Zeros(192)];
    ZerosStayPlain(95);
    ZerosStayPlain(97);
    ZerosStayPlain(192);
    ConcatOfTwo(Stripped(pubkeys));
    ConcatOfTwo(Stripped(signatures));
    assert Submits(pubkeys, signatures);
  }

  lemma {:induction false} ZerosStayPlain(n: nat)
    ensures Strip0x(Zeros(n)) == Zeros(n)
  {
    var s := Zeros(n);
    if n >= 2 {
      assert s[1] in s && s[..2][1] == s[1];
    }
  }

  lemma {:induction false} ConcatOfTwo(parts: seq<string>)
    requires |parts| == 2
    ensures |Concat(parts)| == |parts[0]| + |parts[1]|
  {
    assert parts[1..][0] == parts[1] && parts[1..][1..] == [];
    assert Concat(parts[1..]) == parts[1] + Concat([]);
  }

  /** By how much the parts that are longer than `len` are too long, all together. */
  function Excess(parts: seq<string>, len: nat): nat {
    if parts == [] then 0
    else Excess(parts[1..], len) + if len < |Strip0x(parts[0])| then |Strip0x(parts[0])| - len else 0
  }

  /** By how much the parts that are shorter than `len` are too short, all together. */
  function Deficit(parts: seq<string>, len: nat): nat {
    if parts == [] then 0
    else Deficit(parts[1..], len) + if |Strip0x(parts[0])| < len then len - |Strip0x(parts[0])| else 0
  }

  lemma {:induction false} LengthByExcess(parts: seq<string>, len: nat)
    ensures |Concat(Stripped(parts))| + Deficit(parts, len) == len * |parts| + Excess(parts, len)
  {
    if parts != [] {
      LengthByExcess(parts[1..], len);
      ProductStep(len, |parts|);
      assert Stripped(parts)[1..] == Stripped(parts[1..]);
    }
  }

  /** A batch passes exactly when it is not empty, the counts agree, and what its long keys have too
      much its short keys have too little, and the same for the signatures. */
  lemma {:induction false} SubmitsIff(pubkeys: seq<string>, signatures: seq<string>)
    ensures Submits(pubkeys, signatures)
            <==> && 0 < |pubkeys| == |signatures|
                 && Excess(pubkeys, 96) == Deficit(pubkeys, 96)
                 && Excess(signatures, 192) == Deficit(signatures, 192)
  {
    LengthByExcess(pubkeys, 96);
    LengthByExcess(signatures, 192);
  }

  ghost predicate NoneShorter(parts: seq<string>, len: nat) {
    forall p | p in parts :: len <= |Strip0x(p)|
  }

  ghost predicate AllWhole(parts: seq<string>, len: nat) {
    forall p | p in parts :: |Strip0x(p)| == len
  }

  lemma {:induction false} NoneShorterIff(parts: seq<string>, len: nat)
    ensures Deficit(parts, len) == 0 <==> NoneShorter(parts, len)
    ensures Deficit(parts, len) == 0 && Excess(parts, len) == 0 <==> AllWhole(parts, len)
  {
    if parts != [] {
      NoneShorterIff(parts[1..], len);
      assert parts == [parts[0]] + parts[1..];
    }
  }

  /** So a batch with nothing too short passes exactly when everything in it is whole. */
  lemma {:induction false} SubmitsNothingLonger(pubkeys: seq<string>, signatures: seq<string>)
    ensures Submits(pubkeys, signatures) && NoneShorter(pubkeys, 96) && NoneShorter(signatures, 192)
            <==> 0 < |pubkeys| == |signatures| && AllWhole(pubkeys, 96) && AllWhole(signatures, 192)
  {
    SubmitsIff(pubkeys, signatures);
    NoneShorterIff(pubkeys, 96);
    NoneShorterIff(signatures, 192);
  }

  // ---------------------------------------------------------------------------------------------
  // The checks by themselves.

  /** The form's check of one key. */
  lemma {:induction false} IsHexadecimalIff(s: string, length: nat)
    ensures IsHexadecimal(s, length)
            <==> 0 < |s| == length && forall c | c in s :: c in "0123456789abcdefABCDEF"
  {
    forall c | c in s ensures IsHexDigit(c) <==> c in "0123456789abcdefABCDEF" {
      HexDigitsByName(c);
    }
  }

  /** A text splits exactly when it is made of whole pieces. */
  lemma {:induction false} SplitsIff(hexStr: string, lenBytes: nat)
    ensures Splits(hexStr, lenBytes).Some?
            <==> 0 < lenBytes && exists n: nat :: Pieces(n, lenBytes * 2) == |Strip0x(hexStr)|
  {
    var total, len := |Strip0x(hexStr)|, lenBytes * 2;
    if 0 < lenBytes {
      if total % len == 0 {
        assert Pieces(total / len, len) == total;
      }
      forall n: nat | Pieces(n, len) == total ensures total % len == 0 {
        MultipleOf(n, len, total);
      }
    }
  }

  function Pieces(n: nat, len: nat): nat {
    len * n
  }
}
