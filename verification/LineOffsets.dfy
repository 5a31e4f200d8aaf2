/** The table of line starts of a source text. */
module LineOffsets {
  import opened Sequences
  import opened Text

  function OffsetsOf(lines: seq<string>, accu: nat): seq<nat> {
    if lines == [] then [] else [accu] + OffsetsOf(lines[1..], accu + |lines[0]| + 1)
  }

  method BuildLineOffsets(src: string) returns (offsets: seq<nat>)
    ensures offsets == OffsetsOf(Split(src, '\n'), 0)
  {
    var lines := Split(src, '\n');
    var accu: nat := 0;
    offsets := [];
    for i := 0 to |lines|
      invariant offsets + OffsetsOf(lines[i..], accu) == OffsetsOf(lines, 0)
    {
      assert lines[i..][1..] == lines[i + 1..];
      offsets := offsets + [accu];
      accu := accu + |lines[i]| + 1;
    }
    assert offsets + [] == offsets;
  }

  // ---------------------------------------------------------------------------------------------
  // What the table means for positions in the text.

  function Newlines(s: string): nat {
    if s == [] then 0 else (if s[0] == '\n' then 1 else 0) + Newlines(s[1..])
  }

  /** The positions just behind a newline, in a text that starts at `base`. */
  function BehindNewlines(s: string, base: nat): seq<nat> {
    if s == [] then []
    else (if s[0] == '\n' then [base + 1] else []) + BehindNewlines(s[1..], base + 1)
  }

  lemma {:induction false} OffsetsAreBehindNewlines(s: string, base: nat)
    ensures OffsetsOf(Split(s, '\n'), base) == [base] + BehindNewlines(s, base)
  {
    if s != [] {
      OffsetsAreBehindNewlines(s[1..], base + 1);
      var rest := Split(s[1..], '\n');
      if s[0] == '\n' {
        assert Split(s, '\n')[1..] == rest;
      } else {
        assert Split(s, '\n')[1..] == rest[1..];
        assert OffsetsOf(rest, base + 1)[1..] == BehindNewlines(s[1..], base + 1);
      }
    }
  }

  /** `o` is the position just behind a newline of a text that starts at `base`. */
  predicate IsBehindNewline(s: string, base: nat, o: nat) {
    base < o <= base + |s| && s[o - base - 1] == '\n'
  }

  lemma {:induction false} BehindNewlinesFacts(s: string, base: nat)
    ensures |BehindNewlines(s, base)| == Newlines(s)
    ensures forall o | o in BehindNewlines(s, base) :: IsBehindNewline(s, base, o)
    ensures Increasing(BehindNewlines(s, base))
  {
    if s != [] {
      BehindNewlinesFacts(s[1..], base + 1);
      var (all, rest) := (BehindNewlines(s, base), BehindNewlines(s[1..], base + 1));
      if s[0] == '\n' {
        assert all == [base + 1] + rest;
        forall k | 0 <= k < |rest| ensures base + 1 < rest[k] {
          assert IsBehindNewline(s[1..], base + 1, rest[k]);
        }
      } else {
        assert all == rest;
      }
      forall o | o in all ensures IsBehindNewline(s, base, o) {
        assert o in rest ==> IsBehindNewline(s[1..], base + 1, o);
      }
    }
  }

  /** Position `p` lies in line `k` of the table. */
  predicate InLine(table: seq<nat>, k: nat, p: nat) {
    k < |table| && table[k] <= p && (k + 1 < |table| ==> p < table[k + 1])
  }

  /** A text with one more character in front: a new line in front, or a longer first line. */
  lemma {:induction false} InLineFromNext(base: nat, behind: seq<nat>, k: nat, p: nat)
    requires InLine([base + 1] + behind, k, p)
    ensures InLine([base, base + 1] + behind, k + 1, p)
    ensures InLine([base] + behind, k, p)
  {
    var next := [base + 1] + behind;
    assert [base, base + 1] + behind == [base] + next;
    assert forall j | 0 < j < |next| :: ([base] + behind)[j] == next[j];
  }

  lemma {:induction false} NewlinesBeforeFindLine(s: string, base: nat, p: nat)
    requires p <= |s|
    ensures InLine([base] + BehindNewlines(s, base), Newlines(s[..p]), base + p)
  {
    if p == 0 {
      var behind := BehindNewlines(s, base);
      BehindNewlinesFacts(s, base);
      assert behind != [] ==> IsBehindNewline(s, base, behind[0]);
    } else {
      var rest := BehindNewlines(s[1..], base + 1);
      var k := Newlines(s[1..][..p - 1]);
      NewlinesBeforeFindLine(s[1..], base + 1, p - 1);
      InLineFromNext(base, rest, k, base + p);
      assert s[..p][1..] == s[1..][..p - 1];
      assert [base] + ([base + 1] + rest) == [base, base + 1] + rest;
    }
  }

  /** For every text: the table starts at 0, has an entry for every newline, increases strictly, and
      every later entry follows a newline. */
  lemma {:induction false} LineTable(src: string)
    ensures |OffsetsOf(Split(src, '\n'), 0)| == Newlines(src) + 1
    ensures OffsetsOf(Split(src, '\n'), 0)[0] == 0
    ensures Increasing(OffsetsOf(Split(src, '\n'), 0))
    ensures forall o | o in OffsetsOf(Split(src, '\n'), 0)[1..] :: IsBehindNewline(src, 0, o)
  {
    OffsetsAreBehindNewlines(src, 0);
    BehindNewlinesFacts(src, 0);
    var behind := BehindNewlines(src, 0);
    forall k | 0 <= k < |behind| ensures 0 < behind[k] {
      assert IsBehindNewline(src, 0, behind[k]);
    }
  }

  /** Every position lies in exactly one line: the one numbered by the newlines before it. */
  lemma {:induction false} LineOfPosition(src: string, p: nat, k: nat)
    requires p <= |src|
    ensures InLine(OffsetsOf(Split(src, '\n'), 0), k, p) <==> k == Newlines(src[..p])
  {
    OffsetsAreBehindNewlines(src, 0);
    NewlinesBeforeFindLine(src, 0, p);
    LineTable(src);
    OneLine(OffsetsOf(Split(src, '\n'), 0), k, Newlines(src[..p]), p);
  }

  lemma {:induction false} OneLine(table: seq<nat>, j: nat, k: nat, p: nat)
    requires Increasing(table) && InLine(table, k, p)
    ensures InLine(table, j, p) ==> j == k
  {
    assert j + 1 < k < |table| ==> table[j + 1] < table[k];
    assert k + 1 < j < |table| ==> table[k + 1] < table[j];
  }
}
