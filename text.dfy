/** String primitives the Ruby scripts lean on: character classes of Ruby
    regular expressions, substring search, Ruby's line segmentation (what `^`
    and `$` anchor to), decimal digits, `String#strip`, `String#split` and
    ASCII case folding. */
module Text {
  import opened Outcomes

  // ---------------------------------------------------------------------
  // Character classes

  /** `\d` */
  predicate IsDigit(c: char) {
    '0' <= c <= '9'
  }

  /** `\w`: Ruby's word characters are ASCII letters, digits and `_`. */
  predicate IsWordChar(c: char) {
    'A' <= c <= 'Z' || 'a' <= c <= 'z' || '0' <= c <= '9' || c == '_'
  }

  predicate AllDigits(s: string) {
    forall i | 0 <= i < |s| :: IsDigit(s[i])
  }

  predicate NoNewline(s: string) {
    forall i | 0 <= i < |s| :: s[i] != '\n'
  }

  // ---------------------------------------------------------------------
  // Substring search

  predicate OccursAt(s: string, pat: string, i: int) {
    0 <= i && i + |pat| <= |s| && s[i..i + |pat|] == pat
  }

  /** `s.include?(pat)`, and an unanchored regular expression made of a
      literal (see `ContainsOccurrence`). */
  predicate Contains(s: string, pat: string) {
    ContainsFrom(s, pat, 0)
  }

  /** Whether `pat` occurs at `i` or later. */
  predicate ContainsFrom(s: string, pat: string, i: nat)
    decreases |s| - i
  {
    i + |pat| <= |s| && (OccursAt(s, pat, i) || ContainsFrom(s, pat, i + 1))
  }

  /** The leftmost occurrence of `pat` at or after `from`. */
  function IndexFrom(s: string, pat: string, from: nat): (r: Option<nat>)
    ensures r.Some? ==> from <= r.value && OccursAt(s, pat, r.value)
    ensures r.Some? ==> forall j | from <= j < r.value :: !OccursAt(s, pat, j)
    ensures r.None? ==> forall j | from <= j :: !OccursAt(s, pat, j)
    decreases |s| - from
  {
    if from + |pat| > |s| then None
    else if s[from..from + |pat|] == pat then Some(from)
    else IndexFrom(s, pat, from + 1)
  }

  /** The rightmost occurrence of `pat` that starts in `[from, hi]`. */
  function LastIndexIn(s: string, pat: string, from: nat, hi: int): (r: Option<nat>)
    ensures r.Some? ==> from <= r.value <= hi && OccursAt(s, pat, r.value)
    ensures r.Some? ==> forall j | r.value < j <= hi :: !OccursAt(s, pat, j)
    ensures r.None? ==> forall j | from <= j <= hi :: !OccursAt(s, pat, j)
    decreases hi - from
  {
    if hi < from then None
    else if OccursAt(s, pat, hi) then Some(hi)
    else LastIndexIn(s, pat, from, hi - 1)
  }

  lemma {:induction false} ContainsFromOccurrence(s: string, pat: string, i: nat)
    ensures ContainsFrom(s, pat, i) <==> exists j | i <= j <= |s| - |pat| :: OccursAt(s, pat, j)
    decreases |s| - i
  {
    if i + |pat| <= |s| {
      ContainsFromOccurrence(s, pat, i + 1);
    }
  }

  /** `Contains` holds exactly when the pattern occurs somewhere. */
  lemma ContainsOccurrence(s: string, pat: string)
    ensures Contains(s, pat) <==> exists i | 0 <= i <= |s| - |pat| :: OccursAt(s, pat, i)
  {
    ContainsFromOccurrence(s, pat, 0);
  }

  // ---------------------------------------------------------------------
  // Sequences of sequences

  /** `lines.join` on strings, and the concatenation of blocks of lines. */
  function Flatten<T>(ss: seq<seq<T>>): seq<T> {
    if ss == [] then [] else ss[0] + Flatten(ss[1..])
  }

  lemma {:induction false} FlattenAppend<T>(a: seq<seq<T>>, b: seq<seq<T>>)
    ensures Flatten(a + b) == Flatten(a) + Flatten(b)
  {
    if a == [] {
      assert a + b == b;
    } else {
      assert (a + b)[1..] == a[1..] + b;
      FlattenAppend(a[1..], b);
    }
  }

  /** Concatenation regrouped, for the steps where the solver needs it
      spelled out. */
  lemma ConcatAssoc<T>(a: seq<T>, b: seq<T>, c: seq<T>)
    ensures a + (b + c) == a + b + c
  {
  }

  lemma TakeDrop<T>(s: seq<T>, n: nat)
    requires n <= |s|
    ensures s[..n] + s[n..] == s
  {
  }

  /** `f` applied to each item, in order. */
  function Map<A, B>(xs: seq<A>, f: A -> B): (ys: seq<B>)
    ensures |ys| == |xs| && forall i | 0 <= i < |xs| :: ys[i] == f(xs[i])
  {
    if xs == [] then [] else [f(xs[0])] + Map(xs[1..], f)
  }

  /** The items `keep` accepts, in order. */
  function Filter<T>(xs: seq<T>, keep: T -> bool): (r: seq<T>)
    ensures |r| <= |xs|
  {
    if xs == [] then [] else (if keep(xs[0]) then [xs[0]] else []) + Filter(xs[1..], keep)
  }

  lemma {:induction false} FilterAppend<T>(a: seq<T>, b: seq<T>, keep: T -> bool)
    ensures Filter(a + b, keep) == Filter(a, keep) + Filter(b, keep)
  {
    if a == [] {
      assert a + b == b;
    } else {
      assert (a + b)[1..] == a[1..] + b;
      FilterAppend(a[1..], b, keep);
      ConcatAssoc(if keep(a[0]) then [a[0]] else [], Filter(a[1..], keep), Filter(b, keep));
    }
  }

  lemma {:induction false} FilterMembers<T>(xs: seq<T>, keep: T -> bool)
    ensures forall x :: x in Filter(xs, keep) <==> x in xs && keep(x)
  {
    if xs != [] {
      FilterMembers(xs[1..], keep);
      assert forall x :: x in xs <==> x == xs[0] || x in xs[1..] by {
        assert xs == [xs[0]] + xs[1..];
      }
    }
  }

  /** The values `f` yields, in order, skipping the items it yields none
      for. */
  function FilterMap<A, B>(xs: seq<A>, f: A -> Option<B>): (ys: seq<B>)
    ensures |ys| <= |xs|
  {
    if xs == [] then []
    else (match f(xs[0]) case None => [] case Some(y) => [y]) + FilterMap(xs[1..], f)
  }

  lemma {:induction false} FilterMapMembers<A, B>(xs: seq<A>, f: A -> Option<B>)
    ensures forall y :: y in FilterMap(xs, f) <==> exists i | 0 <= i < |xs| :: f(xs[i]) == Some(y)
  {
    if xs != [] {
      FilterMapMembers(xs[1..], f);
      forall y ensures y in FilterMap(xs, f) <==> exists i | 0 <= i < |xs| :: f(xs[i]) == Some(y) {
        if y in FilterMap(xs[1..], f) {
          var k :| 0 <= k < |xs[1..]| && f(xs[1..][k]) == Some(y);
          assert f(xs[k + 1]) == Some(y);
        }
        if exists i | 1 <= i < |xs| :: f(xs[i]) == Some(y) {
          var i :| 1 <= i < |xs| && f(xs[i]) == Some(y);
          assert xs[1..][i - 1] == xs[i];
        }
      }
    }
  }

  lemma {:induction false} FilterMapSnoc<A, B>(xs: seq<A>, x: A, f: A -> Option<B>)
    ensures FilterMap(xs + [x], f) == FilterMap(xs, f) + (match f(x) case None => [] case Some(y) => [y])
  {
    if xs == [] {
      assert xs + [x] == [x];
      assert [x][1..] == [];
    } else {
      assert (xs + [x])[1..] == xs[1..] + [x];
      FilterMapSnoc(xs[1..], x, f);
    }
  }

  /** The values `f` yields line up, one for one and in order, with the
      items it yields them for. */
  lemma {:induction false} FilterMapInOrder<A, B>(xs: seq<A>, f: A -> Option<B>, keep: A -> bool)
    requires forall x :: keep(x) <==> f(x).Some?
    ensures |FilterMap(xs, f)| == |Filter(xs, keep)|
    ensures forall k | 0 <= k < |Filter(xs, keep)| :: f(Filter(xs, keep)[k]) == Some(FilterMap(xs, f)[k])
  {
    if xs != [] {
      FilterMapInOrder(xs[1..], f, keep);
      if keep(xs[0]) {
        assert Filter(xs, keep) == [xs[0]] + Filter(xs[1..], keep);
        assert FilterMap(xs, f) == [f(xs[0]).value] + FilterMap(xs[1..], f);
      } else {
        assert Filter(xs, keep) == Filter(xs[1..], keep);
        assert FilterMap(xs, f) == FilterMap(xs[1..], f);
      }
    }
  }

  /** `parts.join(sep)` */
  function Join(parts: seq<string>, sep: string): string {
    if parts == [] then []
    else if |parts| == 1 then parts[0]
    else parts[0] + sep + Join(parts[1..], sep)
  }

  // ---------------------------------------------------------------------
  // Ruby line segmentation.  In a Ruby regular expression `^` matches at the
  // start of the string and after every newline that is not the last
  // character; `$` matches before every newline and at the end.  A pattern
  // anchored at both ends and matching no newline therefore matches exactly
  // when one of these lines matches it.

  function Lines(s: string): (r: seq<string>)
    ensures |r| >= 1
    ensures forall l | l in r :: NoNewline(l)
  {
    if s == [] then [[]] else LinesOf(s)
  }

  function LinesOf(s: string): (r: seq<string>)
    ensures forall l | l in r :: NoNewline(l)
    ensures s != [] ==> |r| >= 1
    decreases |s|
  {
    if s == [] then []
    else
      match IndexFrom(s, "\n", 0)
      case None =>
        assert forall j | 0 <= j < |s| :: s[j] != '\n' by {
          forall j | 0 <= j < |s| ensures s[j] != '\n' {
            assert !OccursAt(s, "\n", j);
          }
        }
        [s]
      case Some(k) =>
        assert NoNewline(s[..k]) by {
          forall j | 0 <= j < k ensures s[j] != '\n' {
            assert !OccursAt(s, "\n", j);
          }
        }
        [s[..k]] + LinesOf(s[k + 1..])
  }

  /** The lines joined by newlines give back the string, less a final
      newline: no line starts after it. */
  lemma LinesJoin(s: string)
    ensures Join(Lines(s), "\n") == if s != [] && s[|s| - 1] == '\n' then s[..|s| - 1] else s
  {
    if s != [] {
      LinesOfJoin(s);
    }
  }

  lemma {:induction false} LinesOfJoin(s: string)
    requires s != []
    ensures Join(LinesOf(s), "\n") == if s[|s| - 1] == '\n' then s[..|s| - 1] else s
    decreases |s|
  {
    var k := FirstLine(s);
    if k < |s| {
      if k + 1 < |s| {
        LinesOfJoin(s[k + 1..]);
      }
      LinesOfJoinStep(s, k);
    }
  }

  /** Where the first line of `s` ends: at its first newline, or at its
      end when it has none, in which case it is its one line. */
  lemma FirstLine(s: string) returns (k: nat)
    requires s != []
    ensures k <= |s|
    ensures k == |s| ==> Join(LinesOf(s), "\n") == if s[|s| - 1] == '\n' then s[..|s| - 1] else s
    ensures k < |s| ==> s[k] == '\n' && LinesOf(s) == [s[..k]] + LinesOf(s[k + 1..])
  {
    match IndexFrom(s, "\n", 0)
    case None =>
      k := |s|;
      assert !OccursAt(s, "\n", |s| - 1);
      assert s[|s| - 1..|s|] == [s[|s| - 1]];
    case Some(i) =>
      k := i;
      assert s[k..k + 1] == "\n";
  }

  /** One line cut off at a newline, at `k`. */
  lemma LinesOfJoinStep(s: string, k: nat)
    requires k < |s| && s[k] == '\n' && LinesOf(s) == [s[..k]] + LinesOf(s[k + 1..])
    requires k + 1 < |s| ==>
      Join(LinesOf(s[k + 1..]), "\n") == if s[|s| - 1] == '\n' then s[k + 1..|s| - 1] else s[k + 1..]
    ensures Join(LinesOf(s), "\n") == if s[|s| - 1] == '\n' then s[..|s| - 1] else s
  {
    if k + 1 == |s| {
      assert s[k + 1..] == [];
      assert LinesOf(s) == [s[..k]];
    } else {
      JoinCons(s[..k], LinesOf(s[k + 1..]), "\n");
      RejoinAt(s, k);
    }
  }

  /** A string cut at a newline, at `k`, and put back together less any
      final newline. */
  lemma RejoinAt(s: string, k: nat)
    requires k + 1 < |s| && s[k] == '\n'
    ensures s[..k] + "\n" + (if s[|s| - 1] == '\n' then s[k + 1..|s| - 1] else s[k + 1..])
      == if s[|s| - 1] == '\n' then s[..|s| - 1] else s
  {
    CutAt(s, k);
    if s[|s| - 1] == '\n' {
      CutAt(s[..|s| - 1], k);
      assert s[..|s| - 1][k + 1..] == s[k + 1..|s| - 1];
    }
  }

  /** `s` is what comes before position `k`, the character at `k`, and
      what comes after it. */
  lemma CutAt(s: string, k: nat)
    requires k < |s|
    ensures s == s[..k] + [s[k]] + s[k + 1..]
  {
  }

  lemma JoinCons(head: string, parts: seq<string>, sep: string)
    requires parts != []
    ensures Join([head] + parts, sep) == head + sep + Join(parts, sep)
  {
    assert ([head] + parts)[1..] == parts;
  }

  lemma LinesOfNewlineFree(s: string)
    requires NoNewline(s)
    ensures Lines(s) == [s]
  {
    if s != [] {
      forall j | 0 <= j ensures !OccursAt(s, "\n", j) {
        if j < |s| {
          assert s[j..j + 1] == [s[j]];
        }
      }
    }
  }

  // ---------------------------------------------------------------------
  // Decimal digits

  function DigitValue(c: char): nat
    requires IsDigit(c)
  {
    c as int - '0' as int
  }

  function DigitChar(d: nat): (c: char)
    requires d < 10
    ensures IsDigit(c) && DigitValue(c) == d
  {
    ('0' as int + d) as char
  }

  function Pow10(n: nat): (r: nat)
    ensures r >= 1
  {
    if n == 0 then 1 else 10 * Pow10(n - 1)
  }

  /** `s.to_i` for a string of digits. */
  function DigitsValue(s: string): nat
    requires AllDigits(s)
  {
    if s == [] then 0 else DigitsValue(s[..|s| - 1]) * 10 + DigitValue(s[|s| - 1])
  }

  lemma AllDigitsAppend(s: string, t: string)
    requires AllDigits(s) && AllDigits(t)
    ensures AllDigits(s + t)
  {
    forall i | 0 <= i < |s + t| ensures IsDigit((s + t)[i]) {
      if i < |s| { assert (s + t)[i] == s[i]; } else { assert (s + t)[i] == t[i - |s|]; }
    }
  }

  lemma {:induction false} DigitsValueAppend(s: string, t: string)
    requires AllDigits(s) && AllDigits(t)
    ensures AllDigits(s + t)
    ensures DigitsValue(s + t) == DigitsValue(s) * Pow10(|t|) + DigitsValue(t)
  {
    AllDigitsAppend(s, t);
    if t == [] {
      assert s + t == s;
    } else {
      var t' := t[..|t| - 1];
      var d := DigitValue(t[|t| - 1]);
      assert (s + t)[..|s + t| - 1] == s + t';
      assert (s + t)[|s + t| - 1] == t[|t| - 1];
      DigitsValueAppend(s, t');
      var a, p, b := DigitsValue(s), Pow10(|t'|), DigitsValue(t');
      assert DigitsValue(s + t) == (a * p + b) * 10 + d;
      assert DigitsValue(t) == b * 10 + d;
      assert Pow10(|t|) == 10 * p;
      ShiftDigit(a, p, b, d);
    }
  }

  lemma ShiftDigit(a: int, p: int, b: int, d: int)
    ensures (a * p + b) * 10 + d == a * (10 * p) + (b * 10 + d)
  {
  }

  lemma {:induction false} DigitsValueBound(s: string)
    requires AllDigits(s)
    ensures DigitsValue(s) < Pow10(|s|)
  {
    if s != [] {
      DigitsValueBound(s[..|s| - 1]);
    }
  }

  /** `Integer#to_s` on a natural number. */
  function NatToString(n: nat): (r: string)
    ensures |r| >= 1 && AllDigits(r) && DigitsValue(r) == n
    ensures |r| > 1 ==> r[0] != '0'
    decreases n
  {
    if n < 10 then [DigitChar(n)]
    else
      var r := NatToString(n / 10) + [DigitChar(n % 10)];
      assert r[..|r| - 1] == NatToString(n / 10);
      r
  }

  /** `Integer#to_s` */
  function IntToString(i: int): string {
    if i < 0 then "-" + NatToString(-i) else NatToString(i)
  }

  /** The longest run of digits that starts `s`. */
  function DigitPrefix(s: string): (r: string)
    ensures AllDigits(r) && |r| <= |s| && r == s[..|r|]
    ensures |r| < |s| ==> !IsDigit(s[|r|])
  {
    if s == [] || !IsDigit(s[0]) then [] else [s[0]] + DigitPrefix(s[1..])
  }

  /** The digit run of a string of digits followed by anything but a
      digit is that string. */
  lemma {:induction false} DigitPrefixOf(d: string, t: string)
    requires AllDigits(d) && (t == [] || !IsDigit(t[0]))
    ensures DigitPrefix(d + t) == d
  {
    if d != [] {
      assert (d + t)[1..] == d[1..] + t;
      DigitPrefixOf(d[1..], t);
    }
  }

  // ---------------------------------------------------------------------
  // Case folding, substitution, stripping, splitting

  function LowerChar(c: char): char {
    if 'A' <= c <= 'Z' then (c as int + 32) as char else c
  }

  /** `String#downcase` on ASCII letters. */
  function Lower(s: string): (r: string)
    ensures |r| == |s| && forall i | 0 <= i < |s| :: r[i] == LowerChar(s[i])
  {
    seq(|s|, i requires 0 <= i < |s| => LowerChar(s[i]))
  }

  /** `s.gsub(/\n/, " ")` */
  function NewlinesToSpaces(s: string): (r: string)
    ensures |r| == |s| && NoNewline(r)
    ensures forall i | 0 <= i < |s| :: r[i] == (if s[i] == '\n' then ' ' else s[i])
  {
    seq(|s|, i requires 0 <= i < |s| => if s[i] == '\n' then ' ' else s[i])
  }

  /** The characters `String#strip` removes: NUL, tab, line feed, vertical tab,
      form feed, carriage return and space. */
  predicate IsStripSpace(c: char) {
    c == '\0' || c == '\t' || c == '\n' || c == '\U{0B}' || c == '\U{0C}' || c == '\r' || c == ' '
  }

  predicate AllStripSpace(s: string) {
    forall i | 0 <= i < |s| :: IsStripSpace(s[i])
  }

  function SkipSpaceFrom(s: string, i: nat): (k: nat)
    requires i <= |s|
    ensures i <= k <= |s| && AllStripSpace(s[i..k])
    ensures k < |s| ==> !IsStripSpace(s[k])
    decreases |s| - i
  {
    if i == |s| || !IsStripSpace(s[i]) then i else SkipSpaceFrom(s, i + 1)
  }

  function SkipSpaceBack(s: string, lo: nat, hi: nat): (k: nat)
    requires lo <= hi <= |s|
    ensures lo <= k <= hi && AllStripSpace(s[k..hi])
    ensures k > lo ==> !IsStripSpace(s[k - 1])
    decreases hi
  {
    if hi == lo || !IsStripSpace(s[hi - 1]) then hi
    else
      var k := SkipSpaceBack(s, lo, hi - 1);
      assert s[k..hi] == s[k..hi - 1] + [s[hi - 1]];
      k
  }

  /** `String#strip`: the slice left after removing leading and trailing
      whitespace. */
  function Strip(s: string): (r: string)
    ensures |r| <= |s|
  {
    var a := SkipSpaceFrom(s, 0);
    s[a..SkipSpaceBack(s, a, |s|)]
  }

  /** What `strip` removes is whitespace on both sides, and what it keeps
      neither starts nor ends with whitespace. */
  lemma StripSound(s: string)
    ensures var r := Strip(s);
      && (exists a | 0 <= a <= |s| - |r| :: r == s[a..a + |r|] && AllStripSpace(s[..a]) && AllStripSpace(s[a + |r|..]))
      && (r != [] ==> !IsStripSpace(r[0]) && !IsStripSpace(r[|r| - 1]))
  {
    var a := SkipSpaceFrom(s, 0);
    var b := SkipSpaceBack(s, a, |s|);
    var r := s[a..b];
    assert r == Strip(s);
    assert s[..a] == s[0..a];
    assert s[b..] == s[b..|s|];
    assert a + |r| == b;
    assert r == s[a..a + |r|] && AllStripSpace(s[..a]) && AllStripSpace(s[a + |r|..]);
    if r != [] {
      assert r[0] == s[a] && r[|r| - 1] == s[b - 1];
    }
  }

  /** All fields of `s` separated by `sep`, empty ones included. */
  function SplitAll(s: string, sep: char): (r: seq<string>)
    ensures |r| >= 1
    decreases |s|
  {
    match IndexFrom(s, [sep], 0)
    case None => [s]
    case Some(k) => [s[..k]] + SplitAll(s[k + 1..], sep)
  }

  predicate Excludes(s: string, c: char) {
    forall i | 0 <= i < |s| :: s[i] != c
  }

  lemma SplitFree(a: string, sep: char)
    requires Excludes(a, sep)
    ensures SplitAll(a, sep) == [a]
  {
    forall j | 0 <= j ensures !OccursAt(a, [sep], j) {
      if j < |a| {
        assert a[j..j + 1] == [a[j]];
      }
    }
  }

  /** Two separator-free fields joined by the separator split back into them. */
  lemma SplitPair(a: string, b: string, sep: char)
    requires Excludes(a, sep) && Excludes(b, sep)
    ensures SplitAll(a + [sep] + b, sep) == [a, b]
  {
    var s := a + [sep] + b;
    assert OccursAt(s, [sep], |a|) by {
      assert s[|a|..|a| + 1] == [sep];
    }
    forall j | 0 <= j < |a| ensures !OccursAt(s, [sep], j) {
      assert s[j] == a[j];
      assert s[j..j + 1][0] == s[j];
    }
    var r := IndexFrom(s, [sep], 0);
    assert r == Some(|a|);
    assert s[..|a|] == a && s[|a| + 1..] == b;
    SplitFree(b, sep);
  }

  /** Splitting and re-joining with the separator gives the string back. */
  lemma {:induction false} SplitAllJoin(s: string, sep: char)
    ensures Join(SplitAll(s, sep), [sep]) == s
    decreases |s|
  {
    match IndexFrom(s, [sep], 0)
    case None =>
    case Some(k) =>
      SplitAllJoin(s[k + 1..], sep);
      var rest := SplitAll(s[k + 1..], sep);
      assert SplitAll(s, sep) == [s[..k]] + rest;
      assert s[k..k + 1] == [sep];
      assert s[..k] + [sep] + s[k + 1..] == s;
  }

  function DropTrailingEmpty(fs: seq<string>): (r: seq<string>)
    ensures |r| <= |fs| && r == fs[..|r|]
    ensures r == [] || r[|r| - 1] != []
    ensures forall i | |r| <= i < |fs| :: fs[i] == []
  {
    if fs == [] || fs[|fs| - 1] != [] then fs else DropTrailingEmpty(fs[..|fs| - 1])
  }

  /** `s.split(sep)` with a one-character string separator: Ruby drops the
      trailing empty fields, so the empty string splits into no fields. */
  function RubySplit(s: string, sep: char): seq<string> {
    DropTrailingEmpty(SplitAll(s, sep))
  }
}
