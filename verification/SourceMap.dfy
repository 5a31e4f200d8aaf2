/** Solidity source maps: sections separated by ';', fields by ':', and a field left out when it
    repeats its predecessor's ("Source Mappings" in the Solidity documentation). */
module SourceMap {
  import opened Wrappers
  import opened Lookup
  import opened Text

  /** `Number(text)`, for the texts a source map can hold: decimal integers. */
  function NumberOf(text: Option<string>): Num {
    if text.None? then NaN
    else
      var t := text.value;
      if t == "" then Int(0)
      else if forall c | c in t :: IsDigit(c) then Int(ParseDigits(t))
      else if t[0] == '-' && t[1..] != "" && forall c | c in t[1..] :: IsDigit(c) then Int(-ParseDigits(t[1..]))
      else NaN
  }

  lemma {:induction false} NumberOfDecimal(n: int)
    ensures NumberOf(Some(Decimal(n))) == Int(n)
  {
    if n < 0 {
      NumberOfDigits("-", -n);
    } else {
      NumberOfDigits("", n);
      assert "" + Digits(n) == Digits(n);
    }
  }

  lemma {:induction false} NumberOfDigits(sign: string, n: nat)
    requires sign == "" || sign == "-"
    ensures NumberOf(Some(sign + Digits(n))) == Int(if sign == "" then n else 0 - n)
  {
    ParseDigitsOfDigits(n);
    NumberOfSigned(sign, Digits(n));
  }

  lemma {:induction false} NumberOfSigned(sign: string, digits: string)
    requires sign == "" || sign == "-"
    requires digits != "" && forall c | c in digits :: IsDigit(c)
    ensures NumberOf(Some(sign + digits)) == Int(if sign == "" then ParseDigits(digits) else -ParseDigits(digits))
  {
    if sign == "" {
      assert sign + digits == digits;
      NumberOfPlain(digits);
    } else {
      NumberOfNegative(digits);
    }
  }

  lemma {:induction false} NumberOfPlain(digits: string)
    requires digits != "" && forall c | c in digits :: IsDigit(c)
    ensures NumberOf(Some(digits)) == Int(ParseDigits(digits))
  {}

  lemma {:induction false} NumberOfNegative(digits: string)
    requires digits != "" && forall c | c in digits :: IsDigit(c)
    ensures NumberOf(Some("-" + digits)) == Int(-ParseDigits(digits))
  {
    var t := "-" + digits;
    assert t != "" && t[0] == '-';
    assert t[1..] == digits;
    assert !(forall c | c in t :: IsDigit(c)) by {
      assert t[0] in t && !IsDigit(t[0]);
    }
  }

  /** Field `p` of one section, if the section gives it. */
  function Given(fields: seq<string>, p: nat): Option<string> {
    if p < |fields| && fields[p] != "" then Some(fields[p]) else None
  }

  function OrPrevious(given: Option<string>, previous: Option<string>): Option<string> {
    if given.Some? then given else previous
  }

  /** Field `p` after section `k`: the last one given at or before it. */
  function LastGiven(sections: seq<seq<string>>, p: nat, k: int): Option<string>
    requires k < |sections|
  {
    if k < 0 then None else OrPrevious(Given(sections[k], p), LastGiven(sections, p, k - 1))
  }

  /** A section gives a field by a text that is not empty. */
  predicate Gives(fields: seq<string>, p: nat, v: string) {
    p < |fields| && fields[p] == v && v != ""
  }

  predicate Omits(fields: seq<string>, p: nat) {
    |fields| <= p || fields[p] == ""
  }

  lemma {:induction false} LastGivenIsLast(sections: seq<seq<string>>, p: nat, k: int, v: string)
    requires k < |sections|
    ensures LastGiven(sections, p, k) == Some(v)
            <==> exists m | 0 <= m <= k :: Gives(sections[m], p, v) && forall n | m < n <= k :: Omits(sections[n], p)
  {
    if k >= 0 {
      LastGivenIsLast(sections, p, k - 1, v);
      if Omits(sections[k], p) && LastGiven(sections, p, k - 1) == Some(v) {
        var m :| 0 <= m <= k - 1 && Gives(sections[m], p, v) && forall n | m < n <= k - 1 :: Omits(sections[n], p);
        assert forall n | m < n <= k :: Omits(sections[n], p);
      }
    }
  }

  /** Until some section gives it, a field is undefined, and as a number NaN. */
  lemma {:induction false} NeverGiven(sections: seq<seq<string>>, p: nat, k: int)
    requires k < |sections| && forall m | 0 <= m <= k :: Omits(sections[m], p)
    ensures LastGiven(sections, p, k) == None && NumberOf(LastGiven(sections, p, k)) == NaN
  {
    if k >= 0 {
      NeverGiven(sections, p, k - 1);
    }
  }

  /** Which texts are numbers, and which: digits with a sign or none. */
  lemma {:induction false} NumberByName(t: string, digits: string)
    requires digits != "" && forall c | c in digits :: IsDigit(c)
    ensures NumberOf(Some(digits)) == Int(ParseDigits(digits))
    ensures NumberOf(Some("-" + digits)) == Int(-ParseDigits(digits))
    ensures (exists c | c in t :: c != '-' && !IsDigit(c)) ==> NumberOf(Some(t)) == NaN
  {
    NumberOfPlain(digits);
    NumberOfNegative(digits);
    if c :| c in t && c != '-' && !IsDigit(c) {
      assert t[0] == '-' ==> c in t[1..] by {
        assert t == [t[0]] + t[1..];
      }
    }
  }

  function SectionsOf(raw: string): seq<seq<string>> {
    FieldsOf(Split(Trim(raw), ';'))
  }

  function FieldsOf(sections: seq<string>): (fields: seq<seq<string>>)
    ensures |fields| == |sections|
    ensures forall k | 0 <= k < |sections| :: fields[k] == Split(sections[k], ':')
  {
    if sections == [] then [] else [Split(sections[0], ':')] + FieldsOf(sections[1..])
  }

  function EntryAt(sections: seq<seq<string>>, k: nat): Entry
    requires k < |sections|
  {
    Entry(
      NumberOf(LastGiven(sections, 0, k)),
      NumberOf(LastGiven(sections, 1, k)),
      NumberOf(LastGiven(sections, 2, k)),
      LastGiven(sections, 3, k))
  }

  /** The first `n` entries of the expanded table. */
  function Entries(sections: seq<seq<string>>, n: nat): (entries: seq<Entry>)
    requires n <= |sections|
    ensures |entries| == n
    ensures forall k | 0 <= k < n :: entries[k] == EntryAt(sections, k)
  {
    if n == 0 then [] else Entries(sections, n - 1) + [EntryAt(sections, n - 1)]
  }

  /** The expanded table. */
  function Expanded(raw: string): seq<Entry> {
    Entries(SectionsOf(raw), |SectionsOf(raw)|)
  }

  method ParseSourceMap(raw: string) returns (entries: seq<Entry>)
    ensures entries == Expanded(raw)
  {
    var prevS, prevL, prevF, prevJ: Option<string> := None, None, None, None;
    var split := Split(Trim(raw), ';');
    ghost var sections := SectionsOf(raw);
    entries := [];
    for k := 0 to |split|
      invariant |entries| == k
      invariant prevS == LastGiven(sections, 0, k - 1) && prevL == LastGiven(sections, 1, k - 1)
      invariant prevF == LastGiven(sections, 2, k - 1) && prevJ == LastGiven(sections, 3, k - 1)
      invariant forall m | 0 <= m < k :: entries[m] == EntryAt(sections, m)
    {
      var fields := Split(split[k], ':');
      prevS, prevL := OrPrevious(Given(fields, 0), prevS), OrPrevious(Given(fields, 1), prevL);
      prevF, prevJ := OrPrevious(Given(fields, 2), prevF), OrPrevious(Given(fields, 3), prevJ);
      assert EntryAt(sections, k) == Entry(NumberOf(prevS), NumberOf(prevL), NumberOf(prevF), prevJ);
      entries := entries + [Entry(NumberOf(prevS), NumberOf(prevL), NumberOf(prevF), prevJ)];
    }
  }

  // ---------------------------------------------------------------------------------------------
  // Expansion undoes every legal compression.

  /** An uncompressed entry as the compiler knows it. */
  datatype Mapping = Mapping(offset: int, length: int, file: int, jump: string)

  predicate PlainText(s: string) {
    s != "" && forall c | c in s :: c != ';' && c != ':' && !IsSpace(c)
  }

  function FieldText(m: Mapping, p: nat): string
    requires p < 4
  {
    if p == 0 then Decimal(m.offset) else if p == 1 then Decimal(m.length)
    else if p == 2 then Decimal(m.file) else m.jump
  }

  /** A section may leave a field out, at the end or by an empty text, only when it repeats the
      previous section's; what it gives is the entry's own text. Fields past the fourth are free. */
  ghost predicate LegalField(ms: seq<Mapping>, sections: seq<seq<string>>, k: nat, p: nat)
    requires k < |ms| && k < |sections| && p < 4
  {
    if p < |sections[k]| && sections[k][p] != "" then
      sections[k][p] == FieldText(ms[k], p)
    else
      k > 0 && FieldText(ms[k], p) == FieldText(ms[k - 1], p)
  }

  ghost predicate LegalCompression(ms: seq<Mapping>, sections: seq<seq<string>>) {
    && |ms| == |sections| > 0
    && (forall k | 0 <= k < |ms| :: PlainText(ms[k].jump))
    && (forall k, p | 0 <= k < |ms| && 0 <= p < 4 :: LegalField(ms, sections, k, p))
    && (forall k | 0 <= k < |sections| :: |sections[k]| > 0 && forall f | f in sections[k] :: f == "" || PlainText(f))
  }

  function JoinFields(sections: seq<seq<string>>): (texts: seq<string>)
    requires forall k | 0 <= k < |sections| :: |sections[k]| > 0
    ensures |texts| == |sections|
    ensures forall k | 0 <= k < |sections| :: texts[k] == Join(sections[k], ':')
  {
    if sections == [] then [] else [Join(sections[0], ':')] + JoinFields(sections[1..])
  }

  /** The text of a compressed source map. */
  function Written(sections: seq<seq<string>>): string
    requires |sections| > 0 && forall k | 0 <= k < |sections| :: |sections[k]| > 0
  {
    Join(JoinFields(sections), ';')
  }

  lemma {:induction false} LastGivenIsField(ms: seq<Mapping>, sections: seq<seq<string>>, k: nat, p: nat)
    requires LegalCompression(ms, sections) && k < |ms| && p < 4
    ensures LastGiven(sections, p, k) == Some(FieldText(ms[k], p))
  {
    assert LegalField(ms, sections, k, p);
    if Given(sections[k], p).None? {
      LastGivenIsField(ms, sections, k - 1, p);
    }
  }

  /** Reading the text back gives the sections. */
  lemma {:induction false} WrittenSections(ms: seq<Mapping>, sections: seq<seq<string>>, before: string, after: string)
    requires LegalCompression(ms, sections)
    requires forall c | c in before + after :: IsSpace(c)
    ensures SectionsOf(before + Written(sections) + after) == sections
  {
    var texts := JoinFields(sections);
    forall k | 0 <= k < |sections|
      ensures ';' !in texts[k] && NoSpace(texts[k]) && Split(texts[k], ':') == sections[k]
    {
      FieldsJoin(sections[k]);
    }
    SplitJoin(texts, ';');
    NoSpaceJoin(texts, ';');
    FirstFieldGiven(ms, sections);
    var written := Written(sections);
    assert written[0] in written && written[|written| - 1] in written;
    TrimPadded(before, written, after);
    assert FieldsOf(texts) == sections;
  }

  lemma {:induction false} FieldsJoin(fields: seq<string>)
    requires |fields| > 0 && forall f | f in fields :: f == "" || PlainText(f)
    ensures var text := Join(fields, ':');
            ';' !in text && NoSpace(text) && Split(text, ':') == fields
  {
    SplitJoin(fields, ':');
    JoinAvoids(fields, ':', ';');
    NoSpaceJoin(fields, ':');
  }

  predicate NoSpace(s: string) {
    forall c | c in s :: !IsSpace(c)
  }

  lemma {:induction false} NoSpaceJoin(parts: seq<string>, sep: char)
    requires |parts| > 0 && !IsSpace(sep) && forall p | p in parts :: NoSpace(p)
    ensures NoSpace(Join(parts, sep))
  {
    assert parts[0] in parts;
    if |parts| > 1 {
      NoSpaceJoin(parts[1..], sep);
    }
  }

  lemma {:induction false} FirstFieldGiven(ms: seq<Mapping>, sections: seq<seq<string>>)
    requires LegalCompression(ms, sections)
    ensures Written(sections) != ""
  {
    assert LegalField(ms, sections, 0, 0);
    assert sections[0][0] != "";
    assert Join(sections[0], ':') != "";
  }

  /** For every list of entries and every legal compression of it, padded with any white space,
      expansion gives back exactly the entries. */
  lemma {:induction false} ExpandUndoesCompress(ms: seq<Mapping>, sections: seq<seq<string>>,
                                                before: string, after: string)
    requires LegalCompression(ms, sections)
    requires forall c | c in before + after :: IsSpace(c)
    ensures var entries := Expanded(before + Written(sections) + after);
            && |entries| == |ms|
            && forall k | 0 <= k < |ms| ::
                 entries[k] == Entry(Int(ms[k].offset), Int(ms[k].length), Int(ms[k].file), Some(ms[k].jump))
  {
    WrittenSections(ms, sections, before, after);
    forall k | 0 <= k < |ms|
      ensures EntryAt(sections, k)
              == Entry(Int(ms[k].offset), Int(ms[k].length), Int(ms[k].file), Some(ms[k].jump))
    {
      LastGivenIsField(ms, sections, k, 0);
      LastGivenIsField(ms, sections, k, 1);
      LastGivenIsField(ms, sections, k, 2);
      LastGivenIsField(ms, sections, k, 3);
      NumberOfDecimal(ms[k].offset);
      NumberOfDecimal(ms[k].length);
      NumberOfDecimal(ms[k].file);
    }
  }
}
