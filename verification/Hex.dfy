/** Hexadecimal text: digits, bytes and fixed-width numbers. */
module Hex {
  import opened Text
  import opened Wrappers

  type Byte = b: nat | b < 256

  predicate IsHexDigit(c: char) {
    '0' <= c <= '9' || 'a' <= c <= 'f' || 'A' <= c <= 'F'
  }

  function HexValue(c: char): (v: nat)
    requires IsHexDigit(c)
    ensures v < 16
  {
    if '0' <= c <= '9' then c as int - '0' as int
    else if 'a' <= c <= 'f' then c as int - 'a' as int + 10
    else c as int - 'A' as int + 10
  }

  function HexChar(v: nat): (c: char)
    requires v < 16
    ensures IsHexDigit(c) && HexValue(c) == v
  {
    if v < 10 then ('0' as int + v) as char else ('a' as int + v - 10) as char
  }

  /** The sixteen digits, in either case. */
  lemma {:induction false} HexDigitsByName(c: char)
    ensures IsHexDigit(c) <==> c in "0123456789abcdefABCDEF"
    ensures IsHexDigit(c) ==> "0123456789abcdef"[HexValue(c)] == LowerChar(c)
  {}

  /** `parseInt` in base 16 of one or two characters: the longest hex prefix behind white space, a
      sign and a 0x, if there is one. */
  function ParseHexPair(c: char, d: Option<char>): (n: Option<int>)
    ensures n.Some? ==> -16 < n.value < 256
  {
    if IsHexDigit(c) then
      if d.None? then Some(HexValue(c))
      else if c == '0' && (d.value == 'x' || d.value == 'X') then None
      else if IsHexDigit(d.value) then Some(HexValue(c) * 16 + HexValue(d.value))
      else Some(HexValue(c))
    else if d.None? || !IsHexDigit(d.value) then None
    else if c == '-' then Some(0 - HexValue(d.value))
    else if c == '+' || IsSpace(c) then Some(HexValue(d.value))
    else None
  }

  function ByteHex(b: Byte): (s: string)
    ensures |s| == 2 && IsHexDigit(s[0]) && IsHexDigit(s[1])
    ensures ParseHexPair(s[0], Some(s[1])) == Some(b)
  {
    [HexChar(b / 16), HexChar(b % 16)]
  }

  function BytesHex(bytes: seq<Byte>): (s: string)
    ensures |s| == 2 * |bytes|
  {
    if bytes == [] then "" else ByteHex(bytes[0]) + BytesHex(bytes[1..])
  }

  /** Hex text is written in lower case. */
  lemma {:induction false} HexIsLower(bytes: seq<Byte>)
    ensures forall c | c in BytesHex(bytes) :: c in "0123456789abcdef"
  {
    if bytes != [] {
      HexIsLower(bytes[1..]);
      var head := ByteHex(bytes[0]);
      HexCharIsLower(bytes[0] / 16);
      HexCharIsLower(bytes[0] % 16);
      assert BytesHex(bytes) == head + BytesHex(bytes[1..]);
      assert forall c | c in head :: c == head[0] || c == head[1];
    }
  }

  lemma {:induction false} HexCharIsLower(v: nat)
    requires v < 16
    ensures HexChar(v) == "0123456789abcdef"[v] && HexChar(v) in "0123456789abcdef"
  {}

  /** Bytes can be read back from their hex text, one by one. */
  lemma {:induction false} HexOfByteAt(bytes: seq<Byte>, i: nat)
    requires i < |bytes|
    ensures BytesHex(bytes)[2 * i] == ByteHex(bytes[i])[0]
    ensures BytesHex(bytes)[2 * i + 1] == ByteHex(bytes[i])[1]
  {
    var head, tail := ByteHex(bytes[0]), BytesHex(bytes[1..]);
    assert BytesHex(bytes) == head + tail;
    if i == 0 {
      FirstPair(head, tail);
    } else {
      HexOfByteAt(bytes[1..], i - 1);
      BehindPair(head, tail, i - 1);
      assert bytes[1..][i - 1] == bytes[i];
    }
  }

  lemma {:induction false} FirstPair(head: string, tail: string)
    requires |head| == 2
    ensures (head + tail)[0] == head[0] && (head + tail)[1] == head[1]
  {}

  lemma {:induction false} BehindPair(head: string, tail: string, i: nat)
    requires |head| == 2 && 2 * i + 1 < |tail|
    ensures (head + tail)[2 * (i + 1)] == tail[2 * i]
    ensures (head + tail)[2 * (i + 1) + 1] == tail[2 * i + 1]
  {}

  // ---------------------------------------------------------------------------------------------
  // parseInt in base 16 of any text (section 19.2.5 of ECMA-262).

  /** The longest prefix of hex digits. */
  function HexPrefix(s: string): string {
    if s != "" && IsHexDigit(s[0]) then [s[0]] + HexPrefix(s[1..]) else ""
  }

  function HexPrefixValue(s: string): nat {
    if s == "" || !IsHexDigit(s[|s| - 1]) then 0 else HexPrefixValue(s[..|s| - 1]) * 16 + HexValue(s[|s| - 1])
  }

  /** `parseInt` behind white space: sign, 0x and digits. */
  function ParseTrimmed(t: string): Option<int> {
    var negative := t != "" && t[0] == '-';
    var unsigned := if t != "" && (t[0] == '-' || t[0] == '+') then t[1..] else t;
    var body := if |unsigned| >= 2 && unsigned[0] == '0' && unsigned[1] in "xX" then unsigned[2..] else unsigned;
    var digits := HexPrefix(body);
    if digits == "" then None
    else Some(if negative then 0 - HexPrefixValue(digits) else HexPrefixValue(digits))
  }

  function ParseInt16(s: string): Option<int> {
    ParseTrimmed(TrimStart(s))
  }

  /** On one and two characters, parseInt is the case distinction that the decoders use. */
  lemma {:induction false} ParseHexPairIsParseInt(c: char, d: Option<char>)
    ensures ParseHexPair(c, d) == ParseInt16(if d.Some? then [c, d.value] else [c])
  {
    if d.Some? {
      ParseTwo(c, d.value);
    } else {
      ParseOne(c);
    }
  }

  lemma {:induction false} PrefixOfOne(c: char)
    ensures HexPrefix([c]) == if IsHexDigit(c) then [c] else ""
    ensures IsHexDigit(c) ==> HexPrefixValue([c]) == HexValue(c)
  {
    assert [c][1..] == "" && [c][..0] == "";
  }

  lemma {:induction false} PrefixOfTwo(c: char, d: char)
    ensures HexPrefix([c, d]) == if !IsHexDigit(c) then "" else if IsHexDigit(d) then [c, d] else [c]
    ensures IsHexDigit(c) && IsHexDigit(d) ==> HexPrefixValue([c, d]) == HexValue(c) * 16 + HexValue(d)
  {
    assert [c, d][1..] == [d] && [c, d][..1] == [c];
    PrefixOfOne(c);
    PrefixOfOne(d);
  }

  lemma {:induction false} TrimShort(c: char, rest: string)
    ensures TrimStart([c] + rest) == if IsSpace(c) then TrimStart(rest) else [c] + rest
  {
    assert ([c] + rest)[1..] == rest;
  }

  lemma {:induction false} TrimmedOne(c: char)
    ensures ParseTrimmed([c]) == if IsHexDigit(c) then Some(HexValue(c)) else None
  {
    assert [c][1..] == "" && HexPrefix("") == "";
    PrefixOfOne(c);
  }

  lemma {:induction false} TrimmedTwo(c: char, d: char)
    requires !IsSpace(c)
    ensures ParseTrimmed([c, d]) == ParseHexPair(c, Some(d))
  {
    assert HexPrefix("") == "";
    if c == '-' || c == '+' {
      assert [c, d][1..] == [d];
      PrefixOfOne(d);
    } else if c == '0' && d in "xX" {
      assert [c, d][2..] == "";
    } else {
      PrefixOfTwo(c, d);
      PrefixOfOne(c);
    }
  }

  lemma {:induction false} ParseOne(c: char)
    ensures ParseInt16([c]) == if IsHexDigit(c) then Some(HexValue(c)) else None
  {
    assert [c] + "" == [c];
    TrimShort(c, "");
    if IsSpace(c) {
      assert TrimStart([c]) == "" && HexPrefix("") == "";
    } else {
      TrimmedOne(c);
    }
  }

  lemma {:induction false} ParseTwo(c: char, d: char)
    ensures ParseInt16([c, d]) == ParseHexPair(c, Some(d))
  {
    assert [c] + [d] == [c, d] && [d] + "" == [d];
    TrimShort(c, [d]);
    TrimShort(d, "");
    if !IsSpace(c) {
      TrimmedTwo(c, d);
    } else if !IsSpace(d) {
      TrimmedOne(d);
    } else {
      assert TrimStart([c, d]) == "" && HexPrefix("") == "";
    }
  }
}
