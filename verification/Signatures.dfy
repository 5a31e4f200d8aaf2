/** Compact signatures (section "Specification" of EIP-2098): the parity bit of `v` moves into the
    top bit of `s`, which must be free. */
module Signatures {
  import opened Wrappers
  import opened Hex
  import opened Messages

  /** `byte |= x << 7` on a buffer byte: only the lowest bit of `x` lands in the byte. */
  function OrTopBit(b: Byte, x: nat): Byte {
    if b < 128 && x % 2 == 1 then b + 128 else b
  }

  /** The words r and vs; an error if the top bit of `s` is taken. */
  function Compact(v: nat, r: string, s: seq<Byte>): Result<(string, seq<Byte>)> {
    if s != [] && s[0] / 128 == 1 then Failure
    else if s == [] then Success((r, s))
    else Success((r, s[0 := OrTopBit(s[0], v % 27)]))
  }

  method ToEip2098(v: nat, r: string, s: seq<Byte>) returns (words: Result<(string, string)>)
    ensures words.Success? == Compact(v, r, s).Success?
    ensures words.Success? ==> words.value == (r, "0x" + BytesHex(Compact(v, r, s).value.1))
  {
    var vs := new Byte[|s|](i requires 0 <= i < |s| => s[i]);
    assert vs[..] == s;
    if vs.Length > 0 && vs[0] / 128 == 1 {
      return Failure;
    }
    if vs.Length > 0 {
      vs[0] := OrTopBit(vs[0], v % 27);
    }
    assert vs[..] == if s == [] then s else s[0 := OrTopBit(s[0], v % 27)];
    return Success((r, "0x" + BytesHex(vs[..])));
  }

  /** Reading a compact signature: the parity bit, and `s` without it. */
  function Expand(r: string, vs: seq<Byte>): (nat, string, seq<Byte>)
    requires vs != []
  {
    (27 + vs[0] / 128, r, vs[0 := vs[0] % 128])
  }

  /** The function throws exactly when the top bit of `s` is set; otherwise r and s can be read back
      for every v, and v itself exactly when it is 27 or 28. The bit it sets is the parity of v mod 27,
      and no other byte changes. */
  lemma {:induction false} CompactRoundTrip(v: nat, r: string, s: seq<Byte>)
    requires s != []
    ensures Compact(v, r, s).Failure? <==> 128 <= s[0]
    ensures s[0] < 128 ==>
              var words := Compact(v, r, s).value;
              var expanded := Expand(words.0, words.1);
              && expanded.1 == r && expanded.2 == s
              && (expanded.0 == v <==> v == 27 || v == 28)
              && words.1[0] == s[0] + 128 * ((v % 27) % 2)
              && words.1[1..] == s[1..]
  {
    if s[0] < 128 {
      assert s[0 := s[0]] == s;
      assert v == 27 ==> v % 27 == 0;
    }
  }

  /** The text of the second word is read back as its bytes, and is written in lower case. */
  lemma {:induction false} WordIsRead(vs: seq<Byte>, i: nat)
    requires i < |vs|
    ensures var text := "0x" + BytesHex(vs);
            && |BytesOf(Strip0x(text))| == |vs|
            && BytesOf(Strip0x(text))[i] == Some(vs[i])
            && forall c | c in text[2..] :: c in "0123456789abcdef"
  {
    Strip0xMeans(BytesHex(vs));
    BytesOfHex(vs, i);
    HexIsLower(vs);
    assert ("0x" + BytesHex(vs))[2..] == BytesHex(vs);
  }
}
