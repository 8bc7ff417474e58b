/**
 * The handful of Python string operations the core relies on (`strip`,
 * `splitlines`, `split`, `find`, `capitalize`, `' '.join`, `sorted` on
 * strings, `str(int)`), restricted to ASCII: other Unicode whitespace,
 * line separators and case mappings are not modelled.
 */
module Text {

  /** `c.isspace()` for ASCII characters: space, \t \n \v \f \r and \x1c-\x1f. */
  predicate IsSpace(c: char) {
    c == ' ' || (9 <= c as int <= 13) || (28 <= c as int <= 31)
  }

  /** The ASCII characters on which `str.splitlines` breaks: \n \r \v \f \x1c \x1d \x1e. */
  predicate IsLineBreak(c: char) {
    c == '\n' || c == '\r' || c as int == 11 || c as int == 12 || (28 <= c as int <= 30)
  }

  /** `not s.strip()`: the string holds nothing but whitespace. */
  predicate IsBlank(s: string) {
    forall i :: 0 <= i < |s| ==> IsSpace(s[i])
  }

  predicate NoLineBreak(s: string) {
    forall i :: 0 <= i < |s| ==> !IsLineBreak(s[i])
  }

  // ---------------------------------------------------------------------------
  // strip

  /** The number of leading whitespace characters: where `s.strip()` starts. */
  function StripStart(s: string, i: nat := 0): (r: nat)
    requires i <= |s|
    ensures i <= r <= |s|
    ensures forall k :: i <= k < r ==> IsSpace(s[k])
    ensures r < |s| ==> !IsSpace(s[r])
    decreases |s| - i
  {
    if i == |s| || !IsSpace(s[i]) then i else StripStart(s, i + 1)
  }

  /** Where `s.strip()` ends, given that it starts at `lo`: trailing whitespace down to `lo` is dropped. */
  function StripEnd(s: string, lo: nat, j: nat): (r: nat)
    requires lo <= j <= |s|
    ensures lo <= r <= j
    ensures forall k :: r <= k < j ==> IsSpace(s[k])
    ensures r > lo ==> !IsSpace(s[r - 1])
  {
    if j == lo || !IsSpace(s[j - 1]) then j else StripEnd(s, lo, j - 1)
  }

  /** `s.strip()`: the slice left after dropping leading and trailing whitespace. */
  function Strip(s: string): (r: string)
    ensures StripStart(s) + |r| <= |s|
    ensures r == s[StripStart(s)..StripStart(s) + |r|]
    ensures forall k :: StripStart(s) + |r| <= k < |s| ==> IsSpace(s[k])
    ensures r != [] ==> !IsSpace(r[0]) && !IsSpace(r[|r| - 1])
    ensures r == [] <==> IsBlank(s)
  {
    var i := StripStart(s);
    var j := StripEnd(s, i, |s|);
    assert i == |s| ==> j == i;
    s[i..j]
  }

  // ---------------------------------------------------------------------------
  // find, split and join

  /** `s.find(c)`: the first index holding `c`, or -1. */
  function IndexOf(s: string, c: char): (r: int)
    ensures -1 <= r < |s|
    ensures r == -1 <==> c !in s
    ensures 0 <= r ==> s[r] == c && c !in s[..r]
  {
    if s == [] then -1
    else if s[0] == c then 0
    else
      var k := IndexOf(s[1..], c);
      assert s[1..][..k + 1] == s[1..k + 2] by { assert k + 1 <= |s[1..]| || k == -1; }
      if k == -1 then -1 else k + 1
  }

  /** `s.split(sep)` for a one-character separator. */
  function Split(s: string, sep: char): (parts: seq<string>)
    ensures |parts| >= 1
    ensures forall k :: 0 <= k < |parts| ==> sep !in parts[k]
    decreases |s|
  {
    var i := IndexOf(s, sep);
    if i == -1 then [s] else [s[..i]] + Split(s[i + 1..], sep)
  }

  /** `sep.join(parts)`. */
  function Join(parts: seq<string>, sep: string): string {
    if parts == [] then ""
    else if |parts| == 1 then parts[0]
    else parts[0] + sep + Join(parts[1..], sep)
  }

  /** Splitting on a character and joining on the same character gives the string back. */
  lemma {:induction false} JoinSplit(s: string, sep: char)
    ensures Join(Split(s, sep), [sep]) == s
    decreases |s|
  {
    var i := IndexOf(s, sep);
    if i == -1 {
      assert Split(s, sep) == [s];
    } else {
      var t := s[i + 1..];
      calc {
        Join(Split(s, sep), [sep]);
        == { SplitAt(s, sep, i); }
        Join([s[..i]] + Split(t, sep), [sep]);
        == { JoinCons(s[..i], Split(t, sep), [sep]); }
        s[..i] + [sep] + Join(Split(t, sep), [sep]);
        == { JoinSplit(t, sep); }
        s[..i] + [sep] + t;
        == { assert s[i] == sep; }
        s;
      }
    }
  }

  /** Splitting at the first separator: the piece before it, then the split of the rest. */
  lemma SplitAt(s: string, sep: char, i: int)
    requires i == IndexOf(s, sep) && i >= 0
    ensures Split(s, sep) == [s[..i]] + Split(s[i + 1..], sep)
  {
    assert IndexOf(s, sep) != -1;
  }

  lemma JoinTwo(a: string, b: string, sep: string)
    ensures Join([a, b], sep) == a + sep + b
  {
    assert [a, b][1..] == [b];
  }

  lemma JoinThree(a: string, b: string, c: string, sep: string)
    ensures Join([a, b, c], sep) == a + sep + (b + sep + c)
  {
    assert [a, b, c][1..] == [b, c];
    JoinTwo(b, c, sep);
  }

  lemma JoinCons(a: string, rest: seq<string>, sep: string)
    requires |rest| >= 1
    ensures Join([a] + rest, sep) == a + sep + Join(rest, sep)
  {
    assert ([a] + rest)[1..] == rest;
  }

  // ---------------------------------------------------------------------------
  // case

  function Upper(c: char): char {
    if 'a' <= c <= 'z' then (c as int - 32) as char else c
  }

  function Lower(c: char): char {
    if 'A' <= c <= 'Z' then (c as int + 32) as char else c
  }

  function LowerAll(s: string): (r: string)
    ensures |r| == |s|
    ensures forall i :: 0 <= i < |s| ==> r[i] == Lower(s[i])
  {
    if s == [] then [] else [Lower(s[0])] + LowerAll(s[1..])
  }

  /** `w.capitalize()`: first character upper case, the rest lower case. */
  function Capitalize(w: string): (r: string)
    ensures |r| == |w|
    ensures w != [] ==> r[0] == Upper(w[0])
    ensures forall i :: 0 < i < |w| ==> r[i] == Lower(w[i])
  {
    if w == [] then [] else [Upper(w[0])] + LowerAll(w[1..])
  }

  // ---------------------------------------------------------------------------
  // lines

  /** The index of the first line break in `s`, or -1. */
  function FirstBreak(s: string): (r: int)
    ensures -1 <= r < |s|
    ensures r == -1 <==> NoLineBreak(s)
    ensures 0 <= r ==> IsLineBreak(s[r]) && NoLineBreak(s[..r])
  {
    if s == [] then -1
    else if IsLineBreak(s[0]) then 0
    else
      var k := FirstBreak(s[1..]);
      if k == -1 then -1
      else
        assert s[..k + 1] == [s[0]] + s[1..][..k];
        k + 1
  }

  /**
   * The pieces of `s` between line breaks, each break character counting
   * on its own: "a\r\nb" gives "a", "", "b" where `splitlines` gives "a", "b",
   * and a trailing break gives a trailing "". The extra pieces are empty, so
   * the non-blank lines are the same as those of `splitlines`.
   */
  function Lines(s: string): (ls: seq<string>)
    ensures |ls| >= 1
    ensures forall k :: 0 <= k < |ls| ==> NoLineBreak(ls[k])
    decreases |s|
  {
    var i := FirstBreak(s);
    if i == -1 then [s] else [s[..i]] + Lines(s[i + 1..])
  }

  /** The lines of `s` are the piece before its first break, then the lines after it. */
  lemma LinesAt(s: string, i: int)
    requires i == FirstBreak(s) && i >= 0
    ensures Lines(s) == [s[..i]] + Lines(s[i + 1..])
  {
  }

  /** The line-break characters of `s`, in order. */
  function BreaksOf(s: string): (bs: string)
    ensures forall k :: 0 <= k < |bs| ==> IsLineBreak(bs[k])
  {
    if s == [] then [] else (if IsLineBreak(s[0]) then [s[0]] else []) + BreaksOf(s[1..])
  }

  /** The pieces with `bs[k]` put back between `pieces[k]` and `pieces[k + 1]`. */
  function Interleave(pieces: seq<string>, bs: string): string
    requires |pieces| == |bs| + 1
    decreases |bs|
  {
    if bs == [] then pieces[0] else pieces[0] + [bs[0]] + Interleave(pieces[1..], bs[1..])
  }

  lemma {:induction false} BreaksOfConcat(a: string, b: string)
    ensures BreaksOf(a + b) == BreaksOf(a) + BreaksOf(b)
    decreases |a|
  {
    if a == [] {
      assert a + b == b;
    } else {
      assert (a + b)[1..] == a[1..] + b;
      BreaksOfConcat(a[1..], b);
    }
  }

  lemma {:induction false} NoBreaks(a: string)
    requires NoLineBreak(a)
    ensures BreaksOf(a) == []
    decreases |a|
  {
    if a != [] {
      NoBreaks(a[1..]);
    }
  }

  /**
   * Nothing is lost between the lines: putting each break character back
   * between consecutive lines gives `s` again, so with every line free of
   * breaks the lines of `s` are determined.
   */
  lemma {:induction false} LinesRebuild(s: string)
    ensures |Lines(s)| == |BreaksOf(s)| + 1
    ensures Interleave(Lines(s), BreaksOf(s)) == s
    decreases |s|
  {
    var i := FirstBreak(s);
    if i == -1 {
      NoBreaks(s);
      assert Lines(s) == [s];
    } else {
      LinesRebuild(s[i + 1..]);
      LinesRebuildStep(s, i);
    }
  }

  /** The step of `LinesRebuild`: the first line, its break, then the rebuilt rest. */
  lemma LinesRebuildStep(s: string, i: int)
    requires i == FirstBreak(s) && i >= 0
    requires |Lines(s[i + 1..])| == |BreaksOf(s[i + 1..])| + 1
    requires Interleave(Lines(s[i + 1..]), BreaksOf(s[i + 1..])) == s[i + 1..]
    ensures |Lines(s)| == |BreaksOf(s)| + 1
    ensures Interleave(Lines(s), BreaksOf(s)) == s
  {
    var t := s[i + 1..];
    LinesAt(s, i);
    BreaksAt(s, i);
    InterleaveCons(s[..i], Lines(t), s[i], BreaksOf(t));
    SplitAround(s, i);
  }

  /** The breaks of `s` are its first break, then the breaks after it. */
  lemma BreaksAt(s: string, i: int)
    requires i == FirstBreak(s) && i >= 0
    ensures BreaksOf(s) == [s[i]] + BreaksOf(s[i + 1..])
  {
    var t := s[i + 1..];
    assert s == s[..i] + ([s[i]] + t);
    BreaksOfConcat(s[..i], [s[i]] + t);
    BreaksOfConcat([s[i]], t);
    NoBreaks(s[..i]);
    assert BreaksOf([s[i]]) == [s[i]] by {
      assert [s[i]][1..] == [];
    }
  }

  lemma SplitAround(s: string, i: nat)
    requires i < |s|
    ensures s[..i] + [s[i]] + s[i + 1..] == s
  {
  }

  lemma InterleaveCons(p: string, ls: seq<string>, b: char, bs: string)
    requires |ls| == |bs| + 1
    ensures Interleave([p] + ls, [b] + bs) == p + [b] + Interleave(ls, bs)
  {
    assert ([p] + ls)[1..] == ls && ([b] + bs)[1..] == bs;
  }

  /** `[line for line in lines if line.strip()]`. */
  function NonBlank(lines: seq<string>): (r: seq<string>)
    ensures |r| <= |lines|
    ensures forall k :: 0 <= k < |r| ==> !IsBlank(r[k]) && r[k] in lines
    ensures r == [] ==> forall k :: 0 <= k < |lines| ==> IsBlank(lines[k])
    ensures (forall k :: 0 <= k < |lines| ==> IsBlank(lines[k])) ==> r == []
  {
    if lines == [] then []
    else if IsBlank(lines[0]) then
      var rest := NonBlank(lines[1..]);
      assert forall k :: 1 <= k < |lines| ==> lines[k] == lines[1..][k - 1];
      rest
    else [lines[0]] + NonBlank(lines[1..])
  }

  /** Every line of `lines` is blank. */
  predicate AllBlank(lines: seq<string>)
    decreases |lines|
  {
    lines == [] || (IsBlank(lines[0]) && AllBlank(lines[1..]))
  }

  lemma AllBlankCons(a: string, rest: seq<string>)
    ensures AllBlank([a] + rest) == (IsBlank(a) && AllBlank(rest))
  {
    assert ([a] + rest)[1..] == rest;
  }

  lemma {:induction false} AllBlankIndex(lines: seq<string>)
    ensures AllBlank(lines) <==> forall k :: 0 <= k < |lines| ==> IsBlank(lines[k])
    decreases |lines|
  {
    if lines != [] {
      AllBlankIndex(lines[1..]);
      assert forall k :: 1 <= k < |lines| ==> lines[k] == lines[1..][k - 1];
    }
  }

  /** The first non-blank line is preceded only by blank lines. */
  lemma {:induction false} NonBlankHead(lines: seq<string>)
    requires NonBlank(lines) != []
    ensures exists i :: 0 <= i < |lines| && lines[i] == NonBlank(lines)[0]
                        && forall k :: 0 <= k < i ==> IsBlank(lines[k])
  {
    if IsBlank(lines[0]) {
      NonBlankHead(lines[1..]);
      var j :| 0 <= j < |lines[1..]| && lines[1..][j] == NonBlank(lines[1..])[0]
                && forall k :: 0 <= k < j ==> IsBlank(lines[1..][k]);
      assert lines[j + 1] == NonBlank(lines)[0];
      assert forall k :: 1 <= k < j + 1 ==> lines[k] == lines[1..][k - 1];
    } else {
      assert lines[0] == NonBlank(lines)[0];
    }
  }

  // ---------------------------------------------------------------------------
  // ordering and sorting (Python compares strings code point by code point)

  predicate StrLeq(a: string, b: string) {
    a == [] || (b != [] && (a[0] < b[0] || (a[0] == b[0] && StrLeq(a[1..], b[1..]))))
  }

  lemma {:induction false} StrLeqRefl(a: string)
    ensures StrLeq(a, a)
  {
    if a != [] { StrLeqRefl(a[1..]); }
  }

  lemma {:induction false} StrLeqTotal(a: string, b: string)
    ensures StrLeq(a, b) || StrLeq(b, a)
  {
    if a != [] && b != [] && a[0] == b[0] { StrLeqTotal(a[1..], b[1..]); }
  }

  lemma {:induction false} StrLeqTrans(a: string, b: string, c: string)
    requires StrLeq(a, b) && StrLeq(b, c)
    ensures StrLeq(a, c)
  {
    if a != [] && b != [] && c != [] && a[0] == b[0] == c[0] {
      StrLeqTrans(a[1..], b[1..], c[1..]);
    }
  }

  lemma {:induction false} StrLeqAntisym(a: string, b: string)
    requires StrLeq(a, b) && StrLeq(b, a)
    ensures a == b
  {
    if a != [] && b != [] {
      StrLeqAntisym(a[1..], b[1..]);
      assert a == [a[0]] + a[1..] && b == [b[0]] + b[1..];
    }
  }

  predicate SortedStrings(s: seq<string>) {
    forall i, j :: 0 <= i < j < |s| ==> StrLeq(s[i], s[j])
  }

  function InsertString(x: string, s: seq<string>): seq<string> {
    if s == [] || StrLeq(x, s[0]) then [x] + s else [s[0]] + InsertString(x, s[1..])
  }

  lemma InsertStringSorted(x: string, s: seq<string>)
    requires SortedStrings(s)
    ensures SortedStrings(InsertString(x, s))
    ensures multiset(InsertString(x, s)) == multiset(s) + multiset{x}
  {
    InsertStringOrdered(x, s);
    InsertStringPerm(x, s);
  }

  lemma {:induction false} InsertStringElems(x: string, s: seq<string>)
    ensures forall j :: 0 <= j < |InsertString(x, s)| ==> InsertString(x, s)[j] == x || InsertString(x, s)[j] in s
  {
    if !(s == [] || StrLeq(x, s[0])) {
      InsertStringElems(x, s[1..]);
    }
  }

  lemma {:induction false} InsertStringOrdered(x: string, s: seq<string>)
    requires SortedStrings(s)
    ensures SortedStrings(InsertString(x, s))
  {
    if s == [] || StrLeq(x, s[0]) {
      forall j | 0 < j < |s| + 1 ensures StrLeq(x, ([x] + s)[j]) {
        if j > 1 { StrLeqTrans(x, s[0], s[j - 1]); }
      }
    } else {
      var rest := s[1..];
      InsertStringOrdered(x, rest);
      InsertStringElems(x, rest);
      StrLeqTotal(x, s[0]);
      var t := InsertString(x, rest);
      forall j | 0 <= j < |t| ensures StrLeq(s[0], t[j]) {
        if t[j] != x {
          var k :| 0 <= k < |rest| && rest[k] == t[j];
          assert s[k + 1] == t[j];
        }
      }
      assert InsertString(x, s) == [s[0]] + t;
    }
  }

  lemma {:induction false} InsertStringPerm(x: string, s: seq<string>)
    ensures multiset(InsertString(x, s)) == multiset(s) + multiset{x}
  {
    if !(s == [] || StrLeq(x, s[0])) {
      InsertStringPerm(x, s[1..]);
      assert s == [s[0]] + s[1..];
    }
  }

  /** `sorted(s)` on strings. */
  function SortStrings(s: seq<string>): (r: seq<string>)
    ensures SortedStrings(r)
    ensures multiset(r) == multiset(s)
  {
    if s == [] then []
    else
      var t := SortStrings(s[1..]);
      InsertStringSorted(s[0], t);
      assert s == [s[0]] + s[1..];
      InsertString(s[0], t)
  }

  // ---------------------------------------------------------------------------
  // decimal rendering of counts

  function DigitChar(d: nat): char
    requires d < 10
  {
    ('0' as int + d) as char
  }

  predicate IsDigits(ds: string) {
    forall i :: 0 <= i < |ds| ==> '0' <= ds[i] <= '9'
  }

  /** The number a string of decimal digits denotes, most significant digit first. */
  function DecimalValue(ds: string): nat
    requires IsDigits(ds)
  {
    if ds == [] then 0 else 10 * DecimalValue(ds[..|ds| - 1]) + (ds[|ds| - 1] as int - '0' as int)
  }

  /** `ds` is how Python writes `n`: decimal digits denoting `n`, with no leading zero unless `n` is 0. */
  predicate Renders(ds: string, n: nat) {
    |ds| >= 1 && IsDigits(ds) && (ds[0] == '0' ==> |ds| == 1) && DecimalValue(ds) == n
  }

  /** `str(n)` for a natural number. */
  function NatToString(n: nat): (r: string)
    ensures |r| >= 1
    ensures IsDigits(r)
  {
    if n < 10 then [DigitChar(n)] else NatToString(n / 10) + [DigitChar(n % 10)]
  }

  /** `NatToString(n)` writes `n` in decimal. */
  lemma {:induction false} NatToStringRenders(n: nat)
    ensures Renders(NatToString(n), n)
  {
    var r := NatToString(n);
    if n < 10 {
      assert r[..0] == [];
    } else {
      NatToStringRenders(n / 10);
      var q := NatToString(n / 10);
      assert r[..|r| - 1] == q && r[0] == q[0];
    }
  }
}
