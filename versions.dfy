/** Loose versions: the numeric components that `LooseVersion` extracts from a version string,
    compared the way Python compares lists. */
module Versions {
  import opened Seqs

  /** The components of a version, `LooseVersion("1.10.2").version == [1, 10, 2]`. */
  type Version = seq<nat>

  /** Python's list order: the first differing component decides, and a proper prefix is smaller. */
  predicate Less(a: Version, b: Version)
    decreases |a|
  {
    if a == [] then b != []
    else if b == [] then false
    else a[0] < b[0] || (a[0] == b[0] && Less(a[1..], b[1..]))
  }

  predicate LessEq(a: Version, b: Version) {
    a == b || Less(a, b)
  }

  lemma {:induction false} LessIrreflexive(a: Version)
    ensures !Less(a, a)
  {
    if a != [] {
      LessIrreflexive(a[1..]);
    }
  }

  lemma {:induction false} LessTransitive(a: Version, b: Version, c: Version)
    requires Less(a, b) && Less(b, c)
    ensures Less(a, c)
    decreases |a|
  {
    if a != [] && a[0] == b[0] && b[0] == c[0] {
      LessTransitive(a[1..], b[1..], c[1..]);
    }
  }

  /** The order is total: two versions are equal or one is smaller. */
  lemma {:induction false} LessTotal(a: Version, b: Version)
    ensures a == b || Less(a, b) || Less(b, a)
    decreases |a|
  {
    if a != [] && b != [] && a[0] == b[0] {
      LessTotal(a[1..], b[1..]);
      assert a == [a[0]] + a[1..] && b == [b[0]] + b[1..];
    }
  }

  lemma LessAsymmetric(a: Version, b: Version)
    requires Less(a, b)
    ensures !Less(b, a)
  {
    if Less(b, a) {
      LessTransitive(a, b, a);
      LessIrreflexive(a);
    }
  }

  lemma LessEqTransitive(a: Version, b: Version, c: Version)
    requires LessEq(a, b) && LessEq(b, c)
    ensures LessEq(a, c)
  {
    if a != b && b != c {
      LessTransitive(a, b, c);
    }
  }

  /** `Less` and `LessEq` are each other's negation with the arguments swapped. */
  lemma NotLessEq(a: Version, b: Version)
    ensures !LessEq(a, b) <==> Less(b, a)
  {
    LessTotal(a, b);
    if Less(b, a) {
      LessAsymmetric(b, a);
      LessIrreflexive(a);
    }
  }

  /** A published release: its version string (`vstring`) and the components parsed from it. */
  datatype Release = Release(text: string, ver: Version)

  /** Ascending in version order. */
  ghost predicate Sorted(s: seq<Release>) {
    forall i, j :: 0 <= i < j < |s| ==> LessEq(s[i].ver, s[j].ver)
  }

  /** Inserts `x` before the first element that is not smaller than it, so that equal versions keep their order. */
  function Insert(x: Release, s: seq<Release>): (r: seq<Release>)
    requires Sorted(s)
    ensures Sorted(r)
    ensures multiset(r) == multiset(s) + multiset{x}
  {
    if s == [] then
      [x]
    else if LessEq(x.ver, s[0].ver) then
      InsertInFront(x, s);
      [x] + s
    else
      var t := Insert(x, s[1..]);
      InsertBehind(x, s, t);
      [s[0]] + t
  }

  lemma InsertInFront(x: Release, s: seq<Release>)
    requires Sorted(s) && s != [] && LessEq(x.ver, s[0].ver)
    ensures Sorted([x] + s)
  {
    forall k | 0 <= k < |s| ensures LessEq(x.ver, s[k].ver) {
      LessEqTransitive(x.ver, s[0].ver, s[k].ver);
    }
  }

  lemma InsertBehind(x: Release, s: seq<Release>, t: seq<Release>)
    requires Sorted(s) && s != [] && !LessEq(x.ver, s[0].ver)
    requires Sorted(t) && multiset(t) == multiset(s[1..]) + multiset{x}
    ensures Sorted([s[0]] + t)
    ensures multiset([s[0]] + t) == multiset(s) + multiset{x}
  {
    NotLessEq(x.ver, s[0].ver);
    assert s == [s[0]] + s[1..];
    forall y | y in t ensures LessEq(s[0].ver, y.ver) {
      assert y in multiset(t);
      assert y in s[1..] || y == x;
    }
  }

  /** Python's `sorted` on loose versions: a stable insertion sort. */
  function Sort(s: seq<Release>): (r: seq<Release>)
    ensures Sorted(r)
    ensures multiset(r) == multiset(s)
  {
    if s == [] then [] else
      assert s == [s[0]] + s[1..];
      Insert(s[0], Sort(s[1..]))
  }

  /** The releases whose version is `v`. */
  function SameVer(v: Version): Release -> bool {
    (x: Release) => x.ver == v
  }

  /** Inserting `x` keeps it ahead of every release of equal version already in `s`. */
  lemma {:induction false} InsertStable(x: Release, s: seq<Release>, v: Version)
    requires Sorted(s)
    ensures Filter(Insert(x, s), SameVer(v)) == Filter([x] + s, SameVer(v))
  {
    if s != [] && !LessEq(x.ver, s[0].ver) {
      var t := s[1..];
      var u := Insert(x, t);
      assert Insert(x, s) == [s[0]] + u;
      InsertStable(x, t, v);
      assert s == [s[0]] + t;
      FilterSwap(x, s[0], t, u, SameVer(v));
    } else {
      assert Insert(x, s) == [x] + s;
    }
  }

  /** Sorting is stable: releases of one version come out in the order they were listed. */
  lemma {:induction false} SortStable(s: seq<Release>, v: Version)
    ensures Filter(Sort(s), SameVer(v)) == Filter(s, SameVer(v))
  {
    if s != [] {
      var t := s[1..];
      assert s == [s[0]] + t;
      SortStable(t, v);
      InsertStable(s[0], Sort(t), v);
      FilterConcat([s[0]], Sort(t), SameVer(v));
      FilterConcat([s[0]], t, SameVer(v));
    }
  }

  predicate IsDigit(c: char) {
    '0' <= c <= '9'
  }

  /** A text matching the regular expression `[0-9.]*`. */
  predicate IsNumberText(s: string) {
    forall i :: 0 <= i < |s| ==> IsDigit(s[i]) || s[i] == '.'
  }

  type NumberText = s: string | IsNumberText(s)

  /** `int(s)` for a non-empty run of decimal digits. */
  function DigitsValue(s: string): nat
    requires forall i :: 0 <= i < |s| ==> IsDigit(s[i])
  {
    if s == [] then 0
    else
      assert IsDigit(s[|s| - 1]);
      10 * DigitsValue(s[..|s| - 1]) + (s[|s| - 1] as int - '0' as int)
  }

  /** The length of the run of digits that `s` starts with. */
  function LeadingDigits(s: string): (n: nat)
    ensures n <= |s|
    ensures forall i :: 0 <= i < n ==> IsDigit(s[i])
    ensures n < |s| ==> !IsDigit(s[n])
  {
    if s == [] || !IsDigit(s[0]) then 0 else 1 + LeadingDigits(s[1..])
  }

  /** `LooseVersion(s).version` for a text of digits and dots: every maximal run of digits,
      as a number, in order; the dots only separate. */
  function Components(s: string): Version
    requires IsNumberText(s)
    decreases |s|
  {
    if s == [] then []
    else if s[0] == '.' then Components(s[1..])
    else
      var n := LeadingDigits(s);
      [DigitsValue(s[..n])] + Components(s[n..])
  }

  /** The decimal digits of `n`, without leading zeros. */
  function DecimalText(n: nat): (s: string)
    ensures |s| > 0 && forall i :: 0 <= i < |s| ==> IsDigit(s[i])
    ensures DigitsValue(s) == n
  {
    if n < 10 then
      [('0' as int + n) as char]
    else
      var s := DecimalText(n / 10) + [('0' as int + n % 10) as char];
      assert s[..|s| - 1] == DecimalText(n / 10);
      s
  }

  /** The canonical version string of `v`: its components in decimal, joined by dots. */
  function Render(v: Version): (s: string)
    ensures IsNumberText(s)
  {
    if v == [] then ""
    else if |v| == 1 then DecimalText(v[0])
    else DecimalText(v[0]) + "." + Render(v[1..])
  }

  /** Reading a run of digits that ends at the end of the text or at a dot. */
  lemma {:induction false} LeadingDigitsOf(d: string, rest: string)
    requires forall i :: 0 <= i < |d| ==> IsDigit(d[i])
    requires rest == [] || rest[0] == '.'
    ensures LeadingDigits(d + rest) == |d|
  {
    if d == [] {
      assert d + rest == rest;
    } else {
      assert (d + rest)[1..] == d[1..] + rest;
      LeadingDigitsOf(d[1..], rest);
    }
  }

  /** Parsing the canonical string of a version gives back its components. */
  lemma {:induction false} ComponentsRender(v: Version)
    requires v != []
    ensures Components(Render(v)) == v
  {
    var d := DecimalText(v[0]);
    var rest := if |v| == 1 then "" else "." + Render(v[1..]);
    assert Render(v) == d + rest;
    LeadingDigitsOf(d, rest);
    assert (d + rest)[..|d|] == d && (d + rest)[|d|..] == rest;
    if |v| > 1 {
      ComponentsRender(v[1..]);
      assert rest[1..] == Render(v[1..]);
      assert v == [v[0]] + v[1..];
    }
  }
}
