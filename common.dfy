/** Shared vocabulary: optional values, Python's notion of whitespace, `str.strip`,
    `str.join`, `str.split` on a single character, and decimal numerals. */
module Common {

  datatype Option<+T> = None | Some(value: T)

  /** The characters for which Python's `str.isspace()` holds; `\s` in a `str` regular
      expression matches the same set. */
  predicate IsSpace(c: char) {
    c == ' ' || ('\U{9}' <= c <= '\U{d}') || ('\U{1c}' <= c <= '\U{1f}')
    || c == '\U{85}' || c == '\U{a0}' || c == '\U{1680}'
    || ('\U{2000}' <= c <= '\U{200a}') || c == '\U{2028}' || c == '\U{2029}'
    || c == '\U{202f}' || c == '\U{205f}' || c == '\U{3000}'
  }

  predicate AllSpace(s: string) {
    forall k :: 0 <= k < |s| ==> IsSpace(s[k])
  }

  lemma AllSpacePrefix(t: string, m: nat)
    requires AllSpace(t) && m <= |t|
    ensures AllSpace(t[..m])
  {
    assert forall k :: 0 <= k < m ==> t[..m][k] == t[k];
  }

  predicate IsDigit(c: char) {
    '0' <= c <= '9'
  }

  predicate AllDigits(s: string) {
    forall k :: 0 <= k < |s| ==> IsDigit(s[k])
  }

  /** A string with no whitespace at either end, as `str.strip()` leaves it. */
  predicate IsStripped(s: string) {
    s == [] || (!IsSpace(s[0]) && !IsSpace(s[|s| - 1]))
  }

  /** End of the whitespace run that starts at `i`. */
  function SpaceRunEnd(s: string, i: nat): (j: nat)
    requires i <= |s|
    ensures i <= j <= |s|
    ensures AllSpace(s[i..j])
    ensures j == |s| || !IsSpace(s[j])
    decreases |s| - i
  {
    if i < |s| && IsSpace(s[i]) then SpaceRunEnd(s, i + 1) else i
  }

  /** Start of the whitespace run that ends at `j`. */
  function SpaceRunStart(s: string, j: nat): (i: nat)
    requires j <= |s|
    ensures i <= j
    ensures AllSpace(s[i..j])
    ensures i == 0 || !IsSpace(s[i - 1])
  {
    if j > 0 && IsSpace(s[j - 1]) then
      var i := SpaceRunStart(s, j - 1);
      assert s[i..j] == s[i..j - 1] + [s[j - 1]];
      i
    else j
  }

  /** Python's `str.strip()` with no argument. */
  function Strip(s: string): (r: string)
    ensures IsStripped(r)
    ensures exists i, j :: 0 <= i <= j <= |s| && r == s[i..j] && AllSpace(s[..i]) && AllSpace(s[j..])
    ensures r == [] <==> AllSpace(s)
  {
    var i := SpaceRunEnd(s, 0);
    var j := SpaceRunStart(s, |s|);
    if i >= j then
      StripBlank(s, i, j);
      []
    else
      StripTrimmed(s, i, j);
      s[i..j]
  }

  /** The leading and trailing runs overlap: the whole string is whitespace. */
  lemma StripBlank(s: string, i: nat, j: nat)
    requires j <= i <= |s| && AllSpace(s[0..i]) && AllSpace(s[j..|s|])
    ensures AllSpace(s) && AllSpace(s[..0]) && AllSpace(s[0..])
  {
    forall k | 0 <= k < |s| ensures IsSpace(s[k]) {
      if k < i { assert s[0..i][k] == s[k]; } else { assert s[j..|s|][k - j] == s[k]; }
    }
    assert s[0..] == s;
  }

  /** Between the runs lies a non-space character, so the string is not all whitespace. */
  lemma StripTrimmed(s: string, i: nat, j: nat)
    requires i < j <= |s| && AllSpace(s[0..i]) && AllSpace(s[j..|s|]) && !IsSpace(s[i])
    ensures AllSpace(s[..i]) && AllSpace(s[j..]) && !AllSpace(s)
  {
    assert s[..i] == s[0..i];
    assert s[j..] == s[j..|s|];
  }

  /** Python's `sep.join(parts)`. */
  function JoinWith(sep: string, parts: seq<string>): (r: string)
    decreases |parts|
  {
    if |parts| == 0 then ""
    else if |parts| == 1 then parts[0]
    else parts[0] + sep + JoinWith(sep, parts[1..])
  }

  /** Every character of a joined string comes from the separator or from a part. */
  lemma {:induction false} JoinWithChars(sep: string, parts: seq<string>, c: char)
    requires c in JoinWith(sep, parts)
    ensures c in sep || exists p :: p in parts && c in p
    decreases |parts|
  {
    if |parts| > 1 {
      var rest := JoinWith(sep, parts[1..]);
      if c !in parts[0] && c !in sep {
        assert c in rest;
        JoinWithChars(sep, parts[1..], c);
        var p :| p in parts[1..] && c in p;
        assert p in parts;
      }
    }
  }

  /** Python's `s.split(c)` for a one-character separator: the pieces between the
      occurrences of `c`, always at least one. */
  function SplitOn(s: string, c: char): (r: seq<string>)
    ensures |r| >= 1
    ensures forall p :: p in r ==> c !in p
    decreases |s|
  {
    if c !in s then [s]
    else
      var k := IndexOf(s, c);
      [s[..k]] + SplitOn(s[k + 1..], c)
  }

  /** Index of the first occurrence of `c`. */
  function IndexOf(s: string, c: char): (k: nat)
    requires c in s
    ensures k < |s| && s[k] == c && c !in s[..k]
    ensures forall m :: 0 <= m < k ==> s[m] != c
  {
    if s[0] == c then 0
    else
      assert c in s[1..] by { var m :| 0 <= m < |s| && s[m] == c; assert s[1..][m - 1] == c; }
      var k := 1 + IndexOf(s[1..], c);
      assert s[..k] == [s[0]] + s[1..][..k - 1];
      k
  }

  lemma {:induction false} IndexOfAfterPrefix(p: string, c: char, rest: string)
    requires c !in p
    ensures c in p + [c] + rest && IndexOf(p + [c] + rest, c) == |p|
    decreases |p|
  {
    var s := p + [c] + rest;
    assert s[|p|] == c;
    if p != [] {
      assert s[1..] == p[1..] + [c] + rest;
      IndexOfAfterPrefix(p[1..], c, rest);
    }
  }

  /** Splitting a joined list on its separator gives the list back, provided the
      separator occurs in no part. */
  lemma {:induction false} SplitJoinRoundTrip(parts: seq<string>, c: char)
    requires |parts| >= 1
    requires forall p :: p in parts ==> c !in p
    ensures SplitOn(JoinWith([c], parts), c) == parts
    decreases |parts|
  {
    if |parts| > 1 {
      var rest := JoinWith([c], parts[1..]);
      assert JoinWith([c], parts) == parts[0] + [c] + rest;
      assert forall p :: p in parts[1..] ==> p in parts;
      SplitJoinRoundTrip(parts[1..], c);
      SplitAfterFirst(parts[0], c, rest);
      assert parts == [parts[0]] + parts[1..];
    }
  }

  /** Splitting at a first separator after a separator-free piece. */
  lemma SplitAfterFirst(p: string, c: char, rest: string)
    requires c !in p
    ensures SplitOn(p + [c] + rest, c) == [p] + SplitOn(rest, c)
  {
    var s := p + [c] + rest;
    IndexOfAfterPrefix(p, c, rest);
    assert s[..|p|] == p;
    assert s[|p| + 1..] == rest;
  }

  /** Concatenation of a sequence of sequences, defined from the back so that
      appending one piece is a single unfolding. */
  function Flatten<T>(gs: seq<seq<T>>): seq<T>
    decreases |gs|
  {
    if gs == [] then [] else Flatten(gs[..|gs| - 1]) + gs[|gs| - 1]
  }

  lemma FlattenAppend<T>(gs: seq<seq<T>>, g: seq<T>)
    ensures Flatten(gs + [g]) == Flatten(gs) + g
  {
    assert (gs + [g])[..|gs|] == gs;
  }

  /** `pieces[0] + seps[0] + pieces[1] + ... + pieces[n]`: what `re.split` discards put back. */
  function Weave(pieces: seq<string>, seps: seq<string>): string
    requires |pieces| == |seps| + 1
    decreases |seps|
  {
    if seps == [] then pieces[0] else pieces[0] + seps[0] + Weave(pieces[1..], seps[1..])
  }

  /** A suffix cut at two positions. */
  lemma SliceThree(s: string, start: nat, i: nat, j: nat)
    requires start <= i <= j <= |s|
    ensures s[start..] == s[start..i] + s[i..j] + s[j..]
  {
  }

  /** Weaving one more leading piece and separator in front. */
  lemma WeaveCons(p: string, sep: string, rest: seq<string>, seps: seq<string>)
    requires |rest| == |seps| + 1
    ensures Weave([p] + rest, [sep] + seps) == p + sep + Weave(rest, seps)
  {
    assert ([p] + rest)[1..] == rest;
    assert ([sep] + seps)[1..] == seps;
  }

  /** Number of occurrences of `x` in `s`. */
  function Count<T(==)>(s: seq<T>, x: T): nat
    decreases |s|
  {
    if s == [] then 0 else Count(s[..|s| - 1], x) + (if s[|s| - 1] == x then 1 else 0)
  }

  lemma CountAppend<T>(a: seq<T>, b: seq<T>, x: T)
    ensures Count(a + b, x) == Count(a, x) + Count(b, x)
    decreases |b|
  {
    if b == [] {
      assert a + b == a;
    } else {
      assert (a + b)[..|a + b| - 1] == a + b[..|b| - 1];
      CountAppend(a, b[..|b| - 1], x);
    }
  }

  /** Counting after appending one element. */
  lemma CountSnoc<T>(s: seq<T>, y: T)
    ensures forall x :: Count(s + [y], x) == Count(s, x) + (if y == x then 1 else 0)
  {
    assert (s + [y])[..|s|] == s;
  }

  lemma CountPositive<T>(s: seq<T>, x: T)
    ensures Count(s, x) > 0 <==> x in s
    decreases |s|
  {
    if s != [] {
      CountPositive(s[..|s| - 1], x);
      assert s == s[..|s| - 1] + [s[|s| - 1]];
    }
  }

  /** `xs` is obtained from `ys` by deleting elements: order is preserved. */
  predicate Subseq<T(==)>(xs: seq<T>, ys: seq<T>)
    decreases |ys|
  {
    if xs == [] then true
    else if ys == [] then false
    else if xs[|xs| - 1] == ys[|ys| - 1] then Subseq(xs[..|xs| - 1], ys[..|ys| - 1])
    else Subseq(xs, ys[..|ys| - 1])
  }

  lemma SubseqExtend<T>(xs: seq<T>, ys: seq<T>, y: T)
    requires Subseq(xs, ys)
    ensures Subseq(xs, ys + [y]) && Subseq(xs + [y], ys + [y])
  {
    assert (ys + [y])[..|ys|] == ys;
    assert (xs + [y])[..|xs|] == xs;
    if xs != [] && xs[|xs| - 1] == y {
      SubseqDropLast(xs, ys);
    }
  }

  lemma SubseqDropLast<T>(xs: seq<T>, ys: seq<T>)
    requires xs != [] && Subseq(xs, ys)
    ensures Subseq(xs[..|xs| - 1], ys)
    decreases |ys|, 0
  {
    if ys != [] {
      if xs[|xs| - 1] == ys[|ys| - 1] {
        SubseqWeaken(xs[..|xs| - 1], ys[..|ys| - 1], ys[|ys| - 1]);
        assert ys[..|ys| - 1] + [ys[|ys| - 1]] == ys;
      } else {
        SubseqDropLast(xs, ys[..|ys| - 1]);
        SubseqWeaken(xs[..|xs| - 1], ys[..|ys| - 1], ys[|ys| - 1]);
        assert ys[..|ys| - 1] + [ys[|ys| - 1]] == ys;
      }
    }
  }

  lemma SubseqWeaken<T>(xs: seq<T>, ys: seq<T>, y: T)
    requires Subseq(xs, ys)
    ensures Subseq(xs, ys + [y])
    decreases |ys|, 1
  {
    assert (ys + [y])[..|ys|] == ys;
    if xs != [] && xs[|xs| - 1] == y {
      SubseqDropLast(xs, ys);
    }
  }

  lemma SubseqMembers<T>(xs: seq<T>, ys: seq<T>)
    requires Subseq(xs, ys)
    ensures forall x :: x in xs ==> x in ys
    decreases |ys|
  {
    if xs != [] && ys != [] {
      if xs[|xs| - 1] == ys[|ys| - 1] {
        SubseqMembers(xs[..|xs| - 1], ys[..|ys| - 1]);
        assert xs == xs[..|xs| - 1] + [xs[|xs| - 1]];
      } else {
        SubseqMembers(xs, ys[..|ys| - 1]);
      }
    }
  }

  function DigitValue(c: char): nat
    requires IsDigit(c)
  {
    (c as int - '0' as int) as nat
  }

  /** Value of a decimal numeral, as Python's `int()` / `float()` read it. */
  function DecimalValue(d: string): nat
    requires AllDigits(d)
    decreases |d|
  {
    if d == [] then 0 else DecimalValue(d[..|d| - 1]) * 10 + DigitValue(d[|d| - 1])
  }

  /** Decimal rendering of a natural number, as Python's `str()` gives it. */
  function NatToString(n: nat): (r: string)
    ensures |r| >= 1 && AllDigits(r)
    decreases n
  {
    if n < 10 then ['0' + n as char]
    else NatToString(n / 10) + ['0' + (n % 10) as char]
  }

  /** Decimal rendering of an integer, with a leading `-` when negative. */
  function IntToString(n: int): string
  {
    if n < 0 then "-" + NatToString(-n) else NatToString(n)
  }

  lemma {:induction false} DecimalRoundTrip(n: nat)
    ensures DecimalValue(NatToString(n)) == n
    decreases n
  {
    var r := NatToString(n);
    if n >= 10 {
      DecimalRoundTrip(n / 10);
      assert r[..|r| - 1] == NatToString(n / 10);
    }
  }

  /** `w` occurs in `s` as a contiguous piece. */
  predicate IsInfix(w: string, s: string) {
    exists i, j :: 0 <= i <= j <= |s| && s[i..j] == w
  }

  /** Duplicates removed, first occurrence kept. */
  function Dedup(s: seq<string>): (r: seq<string>)
    ensures forall x :: x in r <==> x in s
    ensures forall i, j :: 0 <= i < j < |r| ==> r[i] != r[j]
    decreases |s|
  {
    if s == [] then []
    else
      var d := Dedup(s[..|s| - 1]);
      var x := s[|s| - 1];
      assert forall y :: y in s <==> y in s[..|s| - 1] || y == x by {
        assert s == s[..|s| - 1] + [x];
      }
      if x in d then d else d + [x]
  }

  lemma {:induction false} DistinctCard(d: seq<string>)
    requires forall i, j :: 0 <= i < j < |d| ==> d[i] != d[j]
    ensures |set x | x in d| == |d|
    decreases |d|
  {
    if d != [] {
      var init := d[..|d| - 1];
      DistinctCard(init);
      assert (set x | x in d) == (set x | x in init) + {d[|d| - 1]} by {
        assert d == init + [d[|d| - 1]];
      }
      assert d[|d| - 1] !in init;
    }
  }}
