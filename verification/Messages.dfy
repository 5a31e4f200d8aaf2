/** The messages that guardians sign: fixed-width fields written as hex and turned into bytes. */
module Messages {
  import opened Wrappers
  import opened Hex
  import opened Sequences
  import opened Text

  function Strip0x(s: string): string {
    if |s| >= 2 && s[..2] == "0x" then s[2..] else s
  }

  /** Two characters a byte; the last byte may have one. None is parseInt's NaN. */
  function BytesOf(hex: string): seq<Option<int>> {
    if hex == "" then []
    else if |hex| == 1 then [ParseHexPair(hex[0], None)]
    else [ParseHexPair(hex[0], Some(hex[1]))] + BytesOf(hex[2..])
  }

  method HexToBytes(hex: string) returns (bytes: seq<Option<int>>)
    ensures bytes == BytesOf(hex)
  {
    bytes := [];
    var c := 0;
    while c < |hex|
      invariant 0 <= c && (c <= |hex| ==> bytes + BytesOf(hex[c..]) == BytesOf(hex))
      invariant c > |hex| ==> bytes == BytesOf(hex)
    {
      var digit := if c + 1 < |hex| then Some(hex[c + 1]) else None;
      BytesOfFrom(hex, c, bytes);
      bytes := bytes + [ParseHexPair(hex[c], digit)];
      c := c + 2;
    }
    assert bytes + [] == bytes;
  }

  /** One more byte of what is left from `c` on. */
  lemma {:induction false} BytesOfFrom(hex: string, c: nat, bytes: seq<Option<int>>)
    requires c < |hex|
    ensures var first := ParseHexPair(hex[c], if c + 1 < |hex| then Some(hex[c + 1]) else None);
            bytes + BytesOf(hex[c..])
            == bytes + [first] + if c + 2 <= |hex| then BytesOf(hex[c + 2..]) else []
  {
    var first := [ParseHexPair(hex[c], if c + 1 < |hex| then Some(hex[c + 1]) else None)];
    if c + 2 <= |hex| {
      assert hex[c..][2..] == hex[c + 2..];
      assert BytesOf(hex[c..]) == first + BytesOf(hex[c + 2..]);
      ConcatAssociates(bytes, first, BytesOf(hex[c + 2..]));
    } else {
      assert BytesOf(hex[c..]) == first;
    }
  }

  // ---------------------------------------------------------------------------------------------
  // Numbers of fixed width.

  function HexDigits(n: nat): (s: string)
    ensures s != "" && forall c | c in s :: IsHexDigit(c)
  {
    if n < 16 then [HexChar(n)] else HexDigits(n / 16) + [HexChar(n % 16)]
  }

  function Zeros(n: nat): (s: string)
    ensures |s| == n && forall c | c in s :: c == '0'
  {
    if n == 0 then "" else ['0'] + Zeros(n - 1)
  }

  const UINT256_SIZE: nat := 64

  /** `toString('hex', 64)`: zeros in front up to the next multiple of 64 digits. */
  function PaddedHex(n: nat): (s: string)
    ensures forall c | c in s :: IsHexDigit(c)
  {
    Zeros(PaddingOf(n)) + HexDigits(n)
  }

  function PaddingOf(n: nat): nat {
    (UINT256_SIZE - |HexDigits(n)| % UINT256_SIZE) % UINT256_SIZE
  }

  lemma {:induction false} PaddedWidth(n: nat)
    requires IsUint256(n)
    ensures |PaddedHex(n)| == UINT256_SIZE
  {
    FillsUp(|HexDigits(n)|);
  }

  lemma {:induction false} FillsUp(digits: nat)
    requires 0 < digits <= 64
    ensures (64 - digits % 64) % 64 + digits == 64
  {
    if digits < 64 {
      assert digits % 64 == digits;
    }
  }

  /** A number of at most 64 hex digits; by HexDigitsFit that is one below 16^64. */
  predicate IsUint256(n: nat) {
    |HexDigits(n)| <= UINT256_SIZE
  }

  function Pow16(k: nat): nat {
    if k == 0 then 1 else 16 * Pow16(k - 1)
  }

  lemma {:induction false} HexDigitsFit(n: nat, k: nat)
    requires k > 0
    ensures |HexDigits(n)| <= k <==> n < Pow16(k)
    decreases n
  {
    assert Pow16(k) == 16 * Pow16(k - 1);
    PositivePower(k - 1);
    if n >= 16 && k > 1 {
      HexDigitsFit(n / 16, k - 1);
    }
  }

  lemma {:induction false} PositivePower(k: nat)
    ensures Pow16(k) >= 1 && (k == 0 ==> Pow16(k) == 1)
  {
    if k > 0 {
      PositivePower(k - 1);
    }
  }

  /** The number a hex text denotes. */
  function HexNumber(s: string): nat
    requires forall c | c in s :: IsHexDigit(c)
  {
    if s == "" then 0 else HexNumber(s[..|s| - 1]) * 16 + HexValue(s[|s| - 1])
  }

  /** The number some bytes denote, most significant first. */
  function BytesNumber(bytes: seq<Option<int>>): int {
    if bytes == [] then 0
    else
      var last := bytes[|bytes| - 1];
      BytesNumber(bytes[..|bytes| - 1]) * 256 + if last.Some? then last.value else 0
  }

  lemma {:induction false} HexNumberOfPadded(zeros: string, n: nat)
    requires forall c | c in zeros :: c == '0'
    ensures forall c | c in zeros + HexDigits(n) :: IsHexDigit(c)
    ensures HexNumber(zeros + HexDigits(n)) == n
  {
    if n < 16 {
      ZerosDenoteZero(zeros);
      HexNumberPush(zeros, HexChar(n));
    } else {
      HexNumberOfPadded(zeros, n / 16);
      HexNumberPush(zeros + HexDigits(n / 16), HexChar(n % 16));
      ConcatAssociates(zeros, HexDigits(n / 16), [HexChar(n % 16)]);
    }
  }

  lemma {:induction false} HexNumberPush(s: string, c: char)
    requires IsHexDigit(c) && forall d | d in s :: IsHexDigit(d)
    ensures forall d | d in s + [c] :: IsHexDigit(d)
    ensures HexNumber(s + [c]) == HexNumber(s) * 16 + HexValue(c)
  {
    assert (s + [c])[..|s|] == s;
  }

  lemma {:induction false} ZerosDenoteZero(zeros: string)
    requires forall c | c in zeros :: c == '0'
    ensures HexNumber(zeros) == 0
  {
    if zeros != "" {
      assert zeros[|zeros| - 1] in zeros;
      var front := zeros[..|zeros| - 1];
      assert forall c | c in front :: c in zeros;
      ZerosDenoteZero(front);
    }
  }

  lemma {:induction false} BytesOfConcat(x: string, y: string)
    requires |x| % 2 == 0
    ensures BytesOf(x + y) == BytesOf(x) + BytesOf(y)
    ensures |BytesOf(x)| == |x| / 2
  {
    if x == "" {
      assert x + y == y;
    } else {
      var first := [ParseHexPair(x[0], Some(x[1]))];
      assert (x + y)[2..] == x[2..] + y;
      BytesOfConcat(x[2..], y);
      assert BytesOf(x + y) == first + (BytesOf(x[2..]) + BytesOf(y));
      ConcatAssociates(first, BytesOf(x[2..]), BytesOf(y));
    }
  }

  lemma {:induction false} BytesNumberOfHex(s: string)
    requires |s| % 2 == 0 && forall c | c in s :: IsHexDigit(c)
    ensures BytesNumber(BytesOf(s)) == HexNumber(s)
  {
    if s != "" {
      var front, c, d := s[..|s| - 2], s[|s| - 2], s[|s| - 1];
      assert s == front + [c, d] == front + [c] + [d];
      BytesNumberOfHex(front);
      BytesOfConcat(front, [c, d]);
      BytesOfPair(c, d);
      BytesNumberPush(BytesOf(front), HexValue(c) * 16 + HexValue(d));
      HexNumberPush(front, c);
      HexNumberPush(front + [c], d);
    }
  }

  lemma {:induction false} BytesOfPair(c: char, d: char)
    requires IsHexDigit(c) && IsHexDigit(d)
    ensures BytesOf([c, d]) == [Some(HexValue(c) * 16 + HexValue(d))]
  {
    assert [c, d][2..] == "" && BytesOf("") == [];
  }

  lemma {:induction false} BytesNumberPush(bytes: seq<Option<int>>, b: int)
    ensures BytesNumber(bytes + [Some(b)]) == BytesNumber(bytes) * 256 + b
  {
    assert (bytes + [Some(b)])[..|bytes|] == bytes;
  }

  /** A 256-bit number can be read back from the bytes of its padded hex text. */
  lemma {:induction false} NumberSurvives(n: nat)
    requires IsUint256(n)
    ensures |PaddedHex(n)| == UINT256_SIZE
    ensures BytesNumber(BytesOf(PaddedHex(n))) == n
  {
    PaddedWidth(n);
    HexNumberOfPadded(Zeros(PaddingOf(n)), n);
    BytesNumberOfHex(PaddedHex(n));
  }

  // ---------------------------------------------------------------------------------------------
  // The two messages.

  function PauseData(pauseMessagePrefix: string, blockNumber: nat): string {
    Strip0x(pauseMessagePrefix) + PaddedHex(blockNumber)
  }

  function AttestMessage(prefix: string, depositRoot: string, keysOpIndex: nat, blockNumber: nat, blockHash: string)
    : string
  {
    Strip0x(prefix) + Strip0x(depositRoot) + PaddedHex(keysOpIndex)
    + PaddedHex(blockNumber) + Strip0x(blockHash)
  }

  method EncodePauseData(pauseMessagePrefix: string, blockNumber: nat) returns (message: seq<Option<int>>)
    ensures message == BytesOf(PauseData(pauseMessagePrefix, blockNumber))
  {
    message := HexToBytes(Strip0x(pauseMessagePrefix) + PaddedHex(blockNumber));
  }

  method EncodeAttestMessage(prefix: string, depositRoot: string, keysOpIndex: nat, blockNumber: nat, blockHash: string)
    returns (message: seq<Option<int>>)
    ensures message == BytesOf(AttestMessage(prefix, depositRoot, keysOpIndex, blockNumber, blockHash))
  {
    message := HexToBytes(
      Strip0x(prefix) + Strip0x(depositRoot) + PaddedHex(keysOpIndex)
      + PaddedHex(blockNumber) + Strip0x(blockHash));
  }

  /** A word of 32 bytes, written with or without the 0x prefix. */
  predicate IsWord(s: string) {
    |Strip0x(s)| == UINT256_SIZE
  }

  /** The 32-byte field number `i` of a message. */
  function Field(message: seq<Option<int>>, i: nat): seq<Option<int>>
    requires 32 * i + 32 <= |message|
  {
    message[32 * i..32 * i + 32]
  }

  /** A text of 64-digit words has one field per word. */
  lemma {:induction false} FieldsOfWords(words: seq<string>, i: nat)
    requires i < |words| && forall w | w in words :: |w| == UINT256_SIZE
    ensures |BytesOf(Concat(words))| == 32 * |words|
    ensures Field(BytesOf(Concat(words)), i) == BytesOf(words[i])
  {
    var first, rest := words[0], words[1..];
    assert first in words;
    BytesOfConcat(first, Concat(rest));
    if rest == [] {
      assert BytesOf(Concat(rest)) == [];
    } else {
      FieldsOfWords(rest, if i == 0 then 0 else i - 1);
      if i > 0 {
        FieldBehind(BytesOf(first), BytesOf(Concat(rest)), i - 1);
      }
    }
  }

  lemma {:induction false} FieldBehind(first: seq<Option<int>>, rest: seq<Option<int>>, i: nat)
    requires |first| == 32 && 32 * i + 32 <= |rest|
    ensures Field(first + rest, i + 1) == Field(rest, i)
  {}

  /** The pause message determines its prefix and its block number. */
  lemma {:induction false} PauseDataDecodes(prefix: string, blockNumber: nat)
    requires IsWord(prefix) && IsUint256(blockNumber)
    ensures var message := BytesOf(PauseData(prefix, blockNumber));
            && |message| == 64
            && Field(message, 0) == BytesOf(Strip0x(prefix))
            && BytesNumber(Field(message, 1)) == blockNumber
  {
    NumberSurvives(blockNumber);
    TwoFields(Strip0x(prefix), PaddedHex(blockNumber));
  }

  lemma {:induction false} TwoFields(a: string, b: string)
    requires |a| == |b| == UINT256_SIZE
    ensures var message := BytesOf(a + b);
            |message| == 64 && Field(message, 0) == BytesOf(a) && Field(message, 1) == BytesOf(b)
  {
    assert Concat([a, b]) == a + b by {
      ConcatStep(a, [b]);
      ConcatStep(b, []);
    }
    FieldsOfWords([a, b], 0);
    FieldsOfWords([a, b], 1);
  }

  lemma {:induction false} ConcatStep(first: string, rest: seq<string>)
    ensures Concat([first] + rest) == first + Concat(rest)
  {
    assert ([first] + rest)[1..] == rest;
  }

  /** The attest message determines every one of its fields. */
  lemma {:induction false} AttestMessageDecodes(prefix: string, depositRoot: string, keysOpIndex: nat,
                                                blockNumber: nat, blockHash: string)
    requires IsWord(prefix) && IsWord(depositRoot) && IsWord(blockHash)
    requires IsUint256(keysOpIndex) && IsUint256(blockNumber)
    ensures var message := BytesOf(AttestMessage(prefix, depositRoot, keysOpIndex, blockNumber, blockHash));
            && |message| == 160
            && Field(message, 0) == BytesOf(Strip0x(prefix))
            && Field(message, 1) == BytesOf(Strip0x(depositRoot))
            && BytesNumber(Field(message, 2)) == keysOpIndex
            && BytesNumber(Field(message, 3)) == blockNumber
            && Field(message, 4) == BytesOf(Strip0x(blockHash))
  {
    NumberSurvives(keysOpIndex);
    NumberSurvives(blockNumber);
    FiveFields(Strip0x(prefix), Strip0x(depositRoot), PaddedHex(keysOpIndex),
      PaddedHex(blockNumber), Strip0x(blockHash));
  }

  lemma {:induction false} FiveFields(a: string, b: string, c: string, d: string, e: string)
    requires |a| == |b| == |c| == |d| == |e| == UINT256_SIZE
    ensures var message := BytesOf(a + b + c + d + e);
            && |message| == 160
            && Field(message, 0) == BytesOf(a) && Field(message, 1) == BytesOf(b) && Field(message, 2) == BytesOf(c)
            && Field(message, 3) == BytesOf(d) && Field(message, 4) == BytesOf(e)
  {
    var words := [a, b, c, d, e];
    ConcatOfFive(a, b, c, d, e);
    var message := BytesOf(Concat(words));
    forall i | 0 <= i < 5 ensures |message| == 160 && Field(message, i) == BytesOf(words[i]) {
      FieldsOfWords(words, i);
    }
    assert words[0] == a && words[1] == b && words[2] == c && words[3] == d && words[4] == e;
  }

  lemma {:induction false} ConcatOfFive(a: string, b: string, c: string, d: string, e: string)
    ensures Concat([a, b, c, d, e]) == a + b + c + d + e
  {
    ConcatStep(e, []);
    ConcatStep(d, [e]);
    ConcatStep(c, [d, e]);
    ConcatStep(b, [c, d, e]);
    ConcatStep(a, [b, c, d, e]);
    assert [a] + [b, c, d, e] == [a, b, c, d, e] && [b] + [c, d, e] == [b, c, d, e];
    assert [c] + [d, e] == [c, d, e] && [d] + [e] == [d, e] && [e] + [] == [e];
    assert e + "" == e;
    ConcatAssociates(a + b + c, d, e);
    ConcatAssociates(a + b, c, d + e);
    ConcatAssociates(a, b, c + (d + e));
  }

  // ---------------------------------------------------------------------------------------------
  // Bytes and prefixes by themselves.

  /** One 0x in front is taken off, and nothing else. */
  lemma {:induction false} Strip0xMeans(s: string)
    ensures Strip0x("0x" + s) == s
    ensures (|s| < 2 || s[0] != '0' || s[1] != 'x') ==> Strip0x(s) == s
  {
    assert ("0x" + s)[..2] == "0x";
    if |s| >= 2 {
      assert s[..2] == [s[0], s[1]];
      assert "0x" == ['0', 'x'];
      assert s[..2] == "0x" ==> s[..2][0] == '0' && s[..2][1] == 'x';
    }
  }

  /** Reading bytes undoes writing them. */
  lemma {:induction false} BytesOfHex(bytes: seq<Byte>, i: nat)
    requires i < |bytes|
    ensures |BytesOf(BytesHex(bytes))| == |bytes| && BytesOf(BytesHex(bytes))[i] == Some(bytes[i])
  {
    var head, tail := ByteHex(bytes[0]), BytesHex(bytes[1..]);
    BytesOfConcat(head, tail);
    BytesOfOne(bytes[0]);
    if |bytes| == 1 {
      assert tail == "" && BytesOf("") == [];
    } else {
      BytesOfHex(bytes[1..], if i == 0 then 0 else i - 1);
    }
  }

  lemma {:induction false} BytesOfOne(b: Byte)
    ensures BytesOf(ByteHex(b)) == [Some(b)]
  {
    var s := ByteHex(b);
    assert s[2..] == "" && BytesOf("") == [];
  }

  lemma {:induction false} SliceBehindTwo(s: string, from: nat, to: nat)
    requires from <= to <= |s| - 2
    ensures s[2..][from..to] == s[from + 2..to + 2]
  {}

  /** Any text: two characters a byte as parseInt reads them, a last odd one alone. */
  lemma {:induction false} BytesByParseInt(hex: string, i: nat)
    requires 2 * i < |hex|
    ensures i < |BytesOf(hex)|
    ensures BytesOf(hex)[i] == ParseInt16(if 2 * i + 1 < |hex| then hex[2 * i..2 * i + 2] else hex[2 * i..])
  {
    if i > 0 {
      BytesByParseInt(hex[2..], i - 1);
      assert BytesOf(hex)[i] == BytesOf(hex[2..])[i - 1];
      var j := 2 * (i - 1);
      if 2 * i + 1 < |hex| {
        SliceBehindTwo(hex, j, j + 2);
      } else {
        SliceBehindTwo(hex, j, |hex| - 2);
      }
    } else if 1 < |hex| {
      assert hex[0..2] == [hex[0], hex[1]];
      ParseHexPairIsParseInt(hex[0], Some(hex[1]));
    } else {
      assert hex[0..] == [hex[0]];
      ParseHexPairIsParseInt(hex[0], None);
    }
  }
}
