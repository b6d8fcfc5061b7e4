/** Choosing which dependencies can be upgraded: joining the declared dependencies with the releases
    the package index lists, keeping the releases compatible with each constraint, and computing the
    releases newer than the newest compatible one. */
module Selection {
  import opened Wrappers
  import opened Seqs
  import opened Text
  import opened Versions
  import opened Conditions

  /** An entry of `__depends__`: its key (possibly with extras, `name[extra]`) and its constraint text. */
  datatype Declared = Declared(key: string, scheme: Option<string>)

  /** A declared dependency together with the package name and every release the index lists for it. */
  datatype Dependency = Dependency(key: string, pkgName: string, scheme: Option<string>, allVersions: seq<Release>)

  /** A dependency kept for upgrading, with its candidate releases in ascending order. */
  datatype Candidate = Candidate(dep: Dependency, possibleUpgrades: seq<Release>)

  /** What the selection decides for one dependency. */
  datatype Selected = Unpinned | UpToDate | Upgradable(possibleUpgrades: seq<Release>)

  /** The exceptions that abort the selection: a piece the clause pattern does not match, a clause with
      an empty version (whose loose version has no components to compare), no compatible release. */
  datatype SelectError = MalformedClause(key: string, piece: string) | UnsetVersion(key: string) | NoCompatibleVersion(key: string)

  /** The dependencies kept for upgrading and the keys of those already at their newest release. */
  datatype Filtered = Filtered(upgradable: seq<Candidate>, noUpgrades: seq<string>)

  /** The package name of a key: everything before its first `[`. */
  function PackageName(key: string): (r: string)
    ensures StartsWith(key, r)
    ensures forall i :: 0 <= i < |r| ==> r[i] != '['
    ensures r == key || key[|r|] == '['
  {
    if key == [] || key[0] == '[' then [] else [key[0]] + PackageName(key[1..])
  }

  /** A key without extras is its own package name. */
  lemma {:induction false} PackageNamePlain(key: string)
    requires forall i :: 0 <= i < |key| ==> key[i] != '['
    ensures PackageName(key) == key
  {
    if key != [] {
      PackageNamePlain(key[1..]);
    }
  }

  /** The extras never change the package name. */
  lemma {:induction false} PackageNameExtras(name: string, extras: string)
    requires forall i :: 0 <= i < |name| ==> name[i] != '['
    ensures PackageName(name + "[" + extras) == name
  {
    if name != [] {
      assert (name + "[" + extras)[1..] == name[1..] + "[" + extras;
      PackageNameExtras(name[1..], extras);
    }
  }

  /** The entry for one declared dependency, or nothing when the index does not know its package. */
  function Entry(d: Declared, index: map<string, seq<Release>>): seq<Dependency> {
    var name := PackageName(d.key);
    if name in index then [Dependency(d.key, name, d.scheme, index[name])] else []
  }

  /** The merged dependencies, in declaration order. */
  function Merged(depends: seq<Declared>, index: map<string, seq<Release>>): seq<Dependency> {
    if depends == [] then [] else Merged(depends[..|depends| - 1], index) + Entry(depends[|depends| - 1], index)
  }

  /** Looks every declared dependency up in the index (a missing package answers 404 and is skipped). */
  method MergeWithIndex(depends: seq<Declared>, index: map<string, seq<Release>>) returns (r: seq<Dependency>)
    ensures r == Merged(depends, index)
  {
    r := [];
    for i := 0 to |depends|
      invariant r == Merged(depends[..i], index)
    {
      var name := PackageName(depends[i].key);
      if name in index {
        r := r + [Dependency(depends[i].key, name, depends[i].scheme, index[name])];
      }
      assert depends[..i + 1][..i] == depends[..i];
    }
    assert depends[..|depends|] == depends;
  }

  /** A merged dependency comes from exactly one declared dependency whose package is known, and every
      declared dependency whose package is known is merged, keeping its key and constraint. */
  lemma {:induction false} MergedEntries(depends: seq<Declared>, index: map<string, seq<Release>>)
    ensures |Merged(depends, index)| <= |depends|
    ensures forall e :: e in Merged(depends, index) <==>
      exists d :: d in depends && PackageName(d.key) in index
                  && e == Dependency(d.key, PackageName(d.key), d.scheme, index[PackageName(d.key)])
  {
    if depends != [] {
      var init := depends[..|depends| - 1];
      var last := depends[|depends| - 1];
      MergedEntries(init, index);
      assert depends == init + [last];
      forall e ensures e in Merged(depends, index) <==>
        exists d :: d in depends && PackageName(d.key) in index
                    && e == Dependency(d.key, PackageName(d.key), d.scheme, index[PackageName(d.key)])
      {
        if e in Merged(init, index) {
          var d :| d in init && PackageName(d.key) in index
                   && e == Dependency(d.key, PackageName(d.key), d.scheme, index[PackageName(d.key)]);
          assert d in depends;
        }
      }
    }
  }

  /** The releases that satisfy one clause (`op(LooseVersion(x), LooseVersion(version))`). */
  function Holding(c: Clause): Release -> bool {
    (x: Release) => Holds(c.op, x.ver, Components(c.number))
  }

  /** One pass of the clause loop. Comparing with the loose version of an empty text raises, but only
      once a release is compared, so an empty list passes through. */
  function Keep(xs: seq<Release>, c: Clause): (r: Option<seq<Release>>)
    ensures r.None? <==> xs != [] && c.number == ""
    ensures r.Some? ==> r.value == Filter(xs, Holding(c))
  {
    if xs == [] then Some([])
    else if c.number == "" then None
    else Some(Filter(xs, Holding(c)))
  }

  /** What one pass keeps, counted: every occurrence of a release that satisfies the clause, and
      nothing else. */
  lemma KeepCounts(xs: seq<Release>, c: Clause, x: Release)
    requires Keep(xs, c).Some?
    ensures multiset(Keep(xs, c).value)[x] == if Holds(c.op, x.ver, Components(c.number)) then multiset(xs)[x] else 0
  {
    FilterMultiset(xs, Holding(c), x);
  }

  /** The clause loop: keeps the releases that satisfy every clause, one clause at a time. */
  function Compatible(xs: seq<Release>, cs: seq<Clause>): (r: Option<seq<Release>>)
    ensures r.Some? ==> |r.value| <= |xs| && forall x :: x in r.value ==> x in xs
    decreases |cs|
  {
    if cs == [] then Some(xs)
    else
      match Keep(xs, cs[0])
      case None => None
      case Some(ys) => Compatible(ys, cs[1..])
  }

  /** The releases that satisfy every clause. */
  ghost function Satisfying(cs: seq<Clause>): Release -> bool {
    (x: Release) => SatisfiesAll(x.ver, cs)
  }

  /** The loose version of a clause's text has components unless that text is empty. */
  predicate HasVersion(c: Clause) {
    c.number != ""
  }

  /** Satisfying a clause list headed by `c` is satisfying `c` and the rest. */
  lemma SatisfyingCons(c: Clause, rest: seq<Clause>)
    ensures forall x :: Satisfying([c] + rest)(x) == (Holding(c)(x) && Satisfying(rest)(x))
  {
    var cs := [c] + rest;
    forall x ensures Satisfying(cs)(x) == (Holding(c)(x) && Satisfying(rest)(x)) {
      if Satisfying(cs)(x) {
        assert Holds(cs[0].op, x.ver, Components(cs[0].number));
        forall i | 0 <= i < |rest| ensures Holds(rest[i].op, x.ver, Components(rest[i].number)) {
          assert rest[i] == cs[i + 1];
        }
      }
      if Holding(c)(x) && Satisfying(rest)(x) {
        forall i | 0 <= i < |cs| ensures Holds(cs[i].op, x.ver, Components(cs[i].number)) {
          if i > 0 {
            assert cs[i] == rest[i - 1];
          }
        }
      }
    }
  }

  /** The clause loop's result is exactly the releases, in their order, that satisfy every clause. */
  lemma {:induction false} CompatibleIsFilter(xs: seq<Release>, cs: seq<Clause>)
    requires Compatible(xs, cs).Some?
    ensures Compatible(xs, cs).value == Filter(xs, Satisfying(cs))
    decreases |cs|
  {
    if cs == [] {
      FilterAll(xs, Satisfying(cs));
    } else {
      var ys := Keep(xs, cs[0]).value;
      CompatibleIsFilter(ys, cs[1..]);
      if xs == [] {
        assert Filter(ys, Satisfying(cs[1..])) == [];
      } else {
        assert cs == [cs[0]] + cs[1..];
        SatisfyingCons(cs[0], cs[1..]);
        FilterFilter(xs, Holding(cs[0]), Satisfying(cs[1..]), Satisfying(cs));
      }
    }
  }

  /** Every clause has a version: the clause loop never raises. */
  lemma {:induction false} CompatibleDefined(xs: seq<Release>, cs: seq<Clause>)
    requires forall i :: 0 <= i < |cs| ==> HasVersion(cs[i])
    ensures Compatible(xs, cs).Some?
    decreases |cs|
  {
    if cs != [] {
      CompatibleDefined(Keep(xs, cs[0]).value, cs[1..]);
    }
  }

  /** The clause loop raises exactly when it meets a clause without a version while some release
      still satisfies all the clauses before it. */
  lemma {:induction false} CompatibleRaises(xs: seq<Release>, cs: seq<Clause>)
    ensures Compatible(xs, cs).None? <==>
      exists i :: 0 <= i < |cs| && !HasVersion(cs[i]) && Filter(xs, Satisfying(cs[..i])) != []
    decreases |cs|
  {
    if cs == [] {
    } else if xs == [] {
      CompatibleOfNothing(cs);
    } else if !HasVersion(cs[0]) {
      assert cs[..0] == [];
      FilterAll(xs, Satisfying(cs[..0]));
    } else {
      CompatibleRaises(Filter(xs, Holding(cs[0])), cs[1..]);
      CompatibleRaisesStep(xs, cs);
    }
  }

  /** The clause loop over no releases never raises. */
  lemma {:induction false} CompatibleOfNothing(cs: seq<Clause>)
    ensures Compatible([], cs) == Some([])
    decreases |cs|
  {
    if cs != [] {
      CompatibleOfNothing(cs[1..]);
    }
  }

  /** The induction step of `CompatibleRaises`, past a first clause that has a version. */
  lemma CompatibleRaisesStep(xs: seq<Release>, cs: seq<Clause>)
    requires xs != [] && cs != [] && HasVersion(cs[0])
    requires var ys := Filter(xs, Holding(cs[0]));
      Compatible(ys, cs[1..]).None? <==>
      exists i :: 0 <= i < |cs[1..]| && !HasVersion(cs[1..][i]) && Filter(ys, Satisfying(cs[1..][..i])) != []
    ensures Compatible(xs, cs).None? <==>
      exists i :: 0 <= i < |cs| && !HasVersion(cs[i]) && Filter(xs, Satisfying(cs[..i])) != []
  {
    var rest := cs[1..];
    var ys := Filter(xs, Holding(cs[0]));
    assert Compatible(xs, cs) == Compatible(ys, rest);
    if Compatible(ys, rest).None? {
      var i :| 0 <= i < |rest| && !HasVersion(rest[i]) && Filter(ys, Satisfying(rest[..i])) != [];
      ShiftedPrefix(xs, cs, i);
      assert cs[i + 1] == rest[i];
    } else {
      forall i | 0 < i < |cs| && !HasVersion(cs[i]) ensures Filter(xs, Satisfying(cs[..i])) == [] {
        ShiftedPrefix(xs, cs, i - 1);
        assert rest[i - 1] == cs[i];
      }
    }
  }

  /** Filtering by the first clause, then by the next `i`, is filtering by the first `i + 1`. */
  lemma ShiftedPrefix(xs: seq<Release>, cs: seq<Clause>, i: nat)
    requires i < |cs| - 1
    ensures Filter(Filter(xs, Holding(cs[0])), Satisfying(cs[1..][..i])) == Filter(xs, Satisfying(cs[..i + 1]))
  {
    assert cs[..i + 1] == [cs[0]] + cs[1..][..i];
    SatisfyingCons(cs[0], cs[1..][..i]);
    FilterFilter(xs, Holding(cs[0]), Satisfying(cs[1..][..i]), Satisfying(cs[..i + 1]));
  }

  /** The clause loop as the program runs it. */
  method CompatibleVersions(all: seq<Release>, cs: seq<Clause>) returns (r: Option<seq<Release>>)
    ensures r == Compatible(all, cs)
  {
    var compatible := all;
    for i := 0 to |cs|
      invariant Compatible(compatible, cs[i..]) == Compatible(all, cs)
    {
      assert cs[i..][1..] == cs[i + 1..];
      if compatible != [] && cs[i].number == "" {
        return None;
      }
      compatible := Filter(compatible, Holding(cs[i]));
    }
    return Some(compatible);
  }

  /** The newest of the compatible releases: the last one once they are sorted. */
  function Maximum(vs: seq<Release>): (m: Release)
    requires vs != []
    ensures m in vs
    ensures forall x :: x in vs ==> LessEq(x.ver, m.ver)
  {
    var s := Sort(vs);
    assert s != [] by {
      assert vs[0] in multiset(vs);
    }
    var m := s[|s| - 1];
    assert m in multiset(s);
    forall x | x in vs ensures LessEq(x.ver, m.ver) {
      assert x in multiset(s);
      var k :| 0 <= k < |s| && s[k] == x;
      SortedLast(s, k);
    }
    m
  }

  /** `itertools.dropwhile(lambda x: x <= maximum_version, s)`. */
  function DropNotAbove(s: seq<Release>, m: Version): (r: seq<Release>)
    ensures |r| <= |s| && r == s[|s| - |r|..]
    ensures r == [] || Less(m, r[0].ver)
  {
    if s != [] && LessEq(s[0].ver, m) then DropNotAbove(s[1..], m)
    else
      assert s != [] ==> Less(m, s[0].ver) by {
        if s != [] {
          NotLessEq(s[0].ver, m);
        }
      }
      s
  }

  /** The releases strictly newer than `m`. */
  function Above(m: Version): Release -> bool {
    (x: Release) => Less(m, x.ver)
  }

  /** On a sorted sequence, dropping the leading old releases leaves exactly the newer ones. */
  lemma {:induction false} DropNotAboveSorted(s: seq<Release>, m: Version)
    requires Sorted(s)
    ensures DropNotAbove(s, m) == Filter(s, Above(m))
  {
    if s != [] {
      if LessEq(s[0].ver, m) {
        DropNotAboveSorted(s[1..], m);
        assert !Less(m, s[0].ver) by {
          if Less(m, s[0].ver) {
            NotLessEq(s[0].ver, m);
          }
        }
      } else {
        NotLessEq(s[0].ver, m);
        forall x | x in s ensures Above(m)(x) {
          var k :| 0 <= k < |s| && s[k] == x;
          if k > 0 {
            assert LessEq(s[0].ver, x.ver);
            if s[0].ver != x.ver {
              LessTransitive(m, s[0].ver, x.ver);
            }
          }
        }
        FilterAll(s, Above(m));
      }
    }
  }

  lemma SortedSuffix(s: seq<Release>, k: nat)
    requires Sorted(s) && k <= |s|
    ensures Sorted(s[k..])
  {
    forall i, j | 0 <= i < j < |s| - k ensures LessEq(s[k..][i].ver, s[k..][j].ver) {
      assert s[k..][i] == s[k + i] && s[k..][j] == s[k + j];
    }
  }

  /** The candidate releases: every listed release newer than `m`, in ascending order. */
  function Upgrades(all: seq<Release>, m: Version): (r: seq<Release>)
    ensures Sorted(r)
    ensures multiset(r) == multiset(Filter(all, Above(m)))
  {
    var s := Sort(all);
    var r := DropNotAbove(s, m);
    DropNotAboveSorted(s, m);
    FilterPermutation(s, all, Above(m));
    SortedSuffix(s, |s| - |r|);
    assert s[|s| - |r|..] == r;
    r
  }

  /** A release is a candidate exactly when it is listed and newer than `m`; `m` itself never is. */
  lemma UpgradesMembers(all: seq<Release>, m: Version, x: Release)
    ensures x in Upgrades(all, m) <==> x in all && Less(m, x.ver)
    ensures Upgrades(all, m) == [] <==> forall y :: y in all ==> LessEq(y.ver, m)
  {
    var r := Upgrades(all, m);
    assert x in r <==> x in multiset(r);
    FilterMembership(all, Above(m), x);
    if r == [] {
      forall y | y in all ensures LessEq(y.ver, m) {
        FilterMembership(all, Above(m), y);
        assert y !in multiset(r);
        NotLessEq(y.ver, m);
      }
    } else {
      var y := r[0];
      assert y in multiset(r);
      FilterMembership(all, Above(m), y);
      NotLessEq(y.ver, m);
    }
  }

  /** The decision for one dependency (one turn of the selection loop). */
  function Select(d: Dependency): (r: Result<Selected, SelectError>)
    ensures r.Err? ==> r.error.key == d.key
  {
    match Parse(d.scheme)
    case NoConstraint => Ok(Unpinned)
    case Malformed(piece) => Err(MalformedClause(d.key, piece))
    case Clauses(cs) =>
      match Compatible(d.allVersions, cs)
      case None => Err(UnsetVersion(d.key))
      case Some(compat) =>
        if compat == [] then Err(NoCompatibleVersion(d.key))
        else
          var ups := Upgrades(d.allVersions, Maximum(compat).ver);
          if ups == [] then Ok(UpToDate) else Ok(Upgradable(ups))
  }

  /** The newest release that satisfies every clause. */
  ghost predicate IsNewestCompatible(m: Release, all: seq<Release>, cs: seq<Clause>) {
    && m in all
    && SatisfiesAll(m.ver, cs)
    && forall x :: x in all && SatisfiesAll(x.ver, cs) ==> LessEq(x.ver, m.ver)
  }

  /** A dependency without a constraint, or with an empty one, is dropped. */
  lemma SelectUnpinned(d: Dependency)
    ensures Select(d) == Ok(Unpinned) <==> d.scheme.None? || d.scheme.value == ""
  {
    match Parse(d.scheme)
    case NoConstraint =>
    case Malformed(_) =>
    case Clauses(cs) =>
      var compat := Compatible(d.allVersions, cs);
      if compat.Some? && compat.value != [] {
        var ups := Upgrades(d.allVersions, Maximum(compat.value).ver);
        assert Select(d) == (if ups == [] then Ok(UpToDate) else Ok(Upgradable(ups)));
      }
  }

  /** A kept dependency's candidates are sorted and are exactly the listed releases newer than the
      newest compatible release, which is not among them. */
  lemma SelectUpgradable(d: Dependency)
    requires Select(d).Ok? && Select(d).value.Upgradable?
    ensures Parse(d.scheme).Clauses?
    ensures var ups := Select(d).value.possibleUpgrades;
      && ups != [] && Sorted(ups)
      && exists m :: IsNewestCompatible(m, d.allVersions, Parse(d.scheme).clauses)
                     && m !in ups
                     && forall x :: x in ups <==> x in d.allVersions && Less(m.ver, x.ver)
  {
    var cs := Parse(d.scheme).clauses;
    var compat := Compatible(d.allVersions, cs).value;
    var m := Maximum(compat);
    var ups := Upgrades(d.allVersions, m.ver);
    NewestCompatible(d.allVersions, cs, compat, m);
    forall x ensures x in ups <==> x in d.allVersions && Less(m.ver, x.ver) {
      UpgradesMembers(d.allVersions, m.ver, x);
    }
    UpgradesMembers(d.allVersions, m.ver, m);
    LessIrreflexive(m.ver);
  }

  /** A dependency is up to date exactly when no listed release is newer than the newest compatible one. */
  lemma SelectUpToDate(d: Dependency)
    requires Select(d).Ok? && Select(d).value.UpToDate?
    ensures Parse(d.scheme).Clauses?
    ensures exists m :: IsNewestCompatible(m, d.allVersions, Parse(d.scheme).clauses)
                        && forall x :: x in d.allVersions ==> LessEq(x.ver, m.ver)
  {
    var cs := Parse(d.scheme).clauses;
    var compat := Compatible(d.allVersions, cs).value;
    var m := Maximum(compat);
    NewestCompatible(d.allVersions, cs, compat, m);
    UpgradesMembers(d.allVersions, m.ver, m);
  }

  /** The maximum of the clause loop's result is the newest compatible release. */
  lemma NewestCompatible(all: seq<Release>, cs: seq<Clause>, compat: seq<Release>, m: Release)
    requires Compatible(all, cs) == Some(compat) && compat != [] && m == Maximum(compat)
    ensures IsNewestCompatible(m, all, cs)
  {
    CompatibleIsFilter(all, cs);
    FilterMembership(all, Satisfying(cs), m);
    forall x | x in all && SatisfiesAll(x.ver, cs) ensures LessEq(x.ver, m.ver) {
      FilterMembership(all, Satisfying(cs), x);
    }
  }

  /** The selection fails exactly on the program's exceptions: a malformed piece, a clause without a
      version while releases remain, and a constraint no listed release satisfies. */
  lemma SelectErrors(d: Dependency)
    ensures (Select(d).Err? && Select(d).error.MalformedClause?) <==> Parse(d.scheme).Malformed?
    ensures (Select(d).Err? && Select(d).error.UnsetVersion?) <==>
      Parse(d.scheme).Clauses? && Compatible(d.allVersions, Parse(d.scheme).clauses).None?
    ensures (Select(d).Err? && Select(d).error.NoCompatibleVersion?) <==>
      Parse(d.scheme).Clauses? && Compatible(d.allVersions, Parse(d.scheme).clauses).Some?
      && forall x :: x in d.allVersions ==> !SatisfiesAll(x.ver, Parse(d.scheme).clauses)
    ensures Select(d).Err? ==> Select(d).error.key == d.key
  {
    if Parse(d.scheme).Clauses? && Compatible(d.allVersions, Parse(d.scheme).clauses).Some? {
      var cs := Parse(d.scheme).clauses;
      var compat := Compatible(d.allVersions, cs).value;
      CompatibleIsFilter(d.allVersions, cs);
      if compat != [] {
        FilterMembership(d.allVersions, Satisfying(cs), compat[0]);
      } else {
        forall x | x in d.allVersions ensures !SatisfiesAll(x.ver, cs) {
          FilterMembership(d.allVersions, Satisfying(cs), x);
        }
      }
    }
  }

  /** Adds one dependency's decision to the collected result. */
  function Record(f: Filtered, d: Dependency, s: Selected): Filtered {
    match s
    case Unpinned => f
    case UpToDate => Filtered(f.upgradable, f.noUpgrades + [d.key])
    case Upgradable(ups) => Filtered(f.upgradable + [Candidate(d, ups)], f.noUpgrades)
  }

  /** The selection loop for any per-dependency decision `sel`: fails with the first dependency that
      fails, otherwise collects the kept dependencies and the keys of the up-to-date ones, in order. */
  function Collect(ds: seq<Dependency>, sel: Dependency -> Result<Selected, SelectError>): (r: Result<Filtered, SelectError>)
  {
    if ds == [] then Ok(Filtered([], []))
    else
      match Collect(ds[..|ds| - 1], sel)
      case Err(e) => Err(e)
      case Ok(f) =>
        match sel(ds[|ds| - 1])
        case Err(e) => Err(e)
        case Ok(s) => Ok(Record(f, ds[|ds| - 1], s))
  }

  /** The outcome of `filter_pkg_that_can_be_upgraded`. */
  function Selections(ds: seq<Dependency>): Result<Filtered, SelectError> {
    Collect(ds, Select)
  }

  /** One turn of the selection loop. */
  method SelectOne(d: Dependency) returns (r: Result<Selected, SelectError>)
    ensures r == Select(d)
  {
    var conditions := ParseConditions(d.scheme);
    match conditions {
      case NoConstraint =>
        return Ok(Unpinned);
      case Malformed(piece) =>
        return Err(MalformedClause(d.key, piece));
      case Clauses(cs) =>
        var compatible := CompatibleVersions(d.allVersions, cs);
        if compatible.None? {
          return Err(UnsetVersion(d.key));
        }
        if compatible.value == [] {
          return Err(NoCompatibleVersion(d.key));
        }
        var maximum := Maximum(compatible.value);
        var possible := Upgrades(d.allVersions, maximum.ver);
        if possible != [] {
          return Ok(Upgradable(possible));
        }
        return Ok(UpToDate);
    }
  }

  /** `filter_pkg_that_can_be_upgraded`, dependency by dependency. */
  method FilterUpgradeable(ds: seq<Dependency>) returns (r: Result<Filtered, SelectError>)
    ensures r == Selections(ds)
  {
    var kept: seq<Candidate> := [];
    var noUpgrades: seq<string> := [];
    for i := 0 to |ds|
      invariant Collect(ds[..i], Select) == Ok(Filtered(kept, noUpgrades))
    {
      var d := ds[i];
      var decision := SelectOne(d);
      CollectPrefix(ds, i, Select, Filtered(kept, noUpgrades));
      match decision {
        case Err(e) =>
          CollectStopsAtError(ds, i + 1, Select);
          return Err(e);
        case Ok(Unpinned) =>
        case Ok(UpToDate) =>
          noUpgrades := noUpgrades + [d.key];
        case Ok(Upgradable(possible)) =>
          kept := kept + [Candidate(d, possible)];
      }
    }
    assert ds[..|ds|] == ds;
    return Ok(Filtered(kept, noUpgrades));
  }

  /** One more dependency of `ds` in the selection loop. */
  lemma CollectPrefix(ds: seq<Dependency>, i: nat, sel: Dependency -> Result<Selected, SelectError>, f: Filtered)
    requires i < |ds| && Collect(ds[..i], sel) == Ok(f)
    ensures sel(ds[i]).Err? ==> Collect(ds[..i + 1], sel) == Err(sel(ds[i]).error)
    ensures sel(ds[i]).Ok? ==> Collect(ds[..i + 1], sel) == Ok(Record(f, ds[i], sel(ds[i]).value))
  {
    assert ds[..i + 1][..i] == ds[..i];
  }

  /** Once a dependency fails, the dependencies after it are not looked at. */
  lemma {:induction false} CollectStopsAtError(ds: seq<Dependency>, k: nat, sel: Dependency -> Result<Selected, SelectError>)
    requires k <= |ds| && Collect(ds[..k], sel).Err?
    ensures Collect(ds, sel) == Collect(ds[..k], sel)
    decreases |ds|
  {
    if k < |ds| {
      var init := ds[..|ds| - 1];
      assert init[..k] == ds[..k];
      CollectStopsAtError(init, k, sel);
    } else {
      assert ds[..k] == ds;
    }
  }

  /** The dependencies `sel` keeps for upgrading. */
  function UpgradableBy(sel: Dependency -> Result<Selected, SelectError>): Dependency -> bool {
    d => sel(d).Ok? && sel(d).value.Upgradable?
  }

  /** The dependencies `sel` finds already at their newest release. */
  function UpToDateBy(sel: Dependency -> Result<Selected, SelectError>): Dependency -> bool {
    d => sel(d) == Ok(UpToDate)
  }

  function Deps(cs: seq<Candidate>): seq<Dependency> {
    seq(|cs|, i requires 0 <= i < |cs| => cs[i].dep)
  }

  function Keys(ds: seq<Dependency>): seq<string> {
    seq(|ds|, i requires 0 <= i < |ds| => ds[i].key)
  }

  lemma DepsSnoc(cs: seq<Candidate>, c: Candidate)
    ensures Deps(cs + [c]) == Deps(cs) + [c.dep]
  {
  }

  lemma KeysSnoc(ds: seq<Dependency>, d: Dependency)
    ensures Keys(ds + [d]) == Keys(ds) + [d.key]
  {
  }

  /** A successful selection keeps, in their order and unchanged, exactly the dependencies the decision
      finds upgradable, each with its own candidates, and lists, in order, exactly the keys of the
      up-to-date ones; the dropped ones appear in neither. */
  lemma {:induction false} CollectContents(ds: seq<Dependency>, sel: Dependency -> Result<Selected, SelectError>)
    requires Collect(ds, sel).Ok?
    ensures Deps(Collect(ds, sel).value.upgradable) == Filter(ds, UpgradableBy(sel))
    ensures forall c :: c in Collect(ds, sel).value.upgradable ==> sel(c.dep) == Ok(Upgradable(c.possibleUpgrades))
    ensures Collect(ds, sel).value.noUpgrades == Keys(Filter(ds, UpToDateBy(sel)))
  {
    if ds != [] {
      var init := ds[..|ds| - 1];
      var d := ds[|ds| - 1];
      assert ds == init + [d];
      CollectContents(init, sel);
      FilterSnoc(init, d, UpgradableBy(sel));
      FilterSnoc(init, d, UpToDateBy(sel));
      var f := Collect(init, sel).value;
      match sel(d).value {
        case Unpinned =>
        case UpToDate =>
          KeysSnoc(Filter(init, UpToDateBy(sel)), d);
        case Upgradable(ups) =>
          DepsSnoc(f.upgradable, Candidate(d, ups));
      }
    }
  }

  /** The selection fails exactly when some dependency fails, and then with the first such failure. */
  lemma {:induction false} CollectFails(ds: seq<Dependency>, sel: Dependency -> Result<Selected, SelectError>)
    ensures Collect(ds, sel).Err? <==> exists i :: 0 <= i < |ds| && sel(ds[i]).Err?
    ensures Collect(ds, sel).Err? ==>
      exists i :: 0 <= i < |ds| && sel(ds[i]) == Err(Collect(ds, sel).error)
                  && forall j :: 0 <= j < i ==> sel(ds[j]).Ok?
  {
    if ds != [] {
      var init := ds[..|ds| - 1];
      CollectFails(init, sel);
      assert forall j :: 0 <= j < |init| ==> init[j] == ds[j];
    }
  }

  /** `filter_pkg_that_can_be_upgraded` keeps exactly the upgradable dependencies, in order, with their
      candidates, lists the up-to-date keys, and fails exactly when some dependency's decision fails. */
  lemma SelectionsMeaning(ds: seq<Dependency>)
    ensures Selections(ds).Err? <==> exists i :: 0 <= i < |ds| && Select(ds[i]).Err?
    ensures Selections(ds).Ok? ==>
      && Deps(Selections(ds).value.upgradable) == Filter(ds, UpgradableBy(Select))
      && (forall c :: c in Selections(ds).value.upgradable ==> Select(c.dep) == Ok(Upgradable(c.possibleUpgrades)))
      && Selections(ds).value.noUpgrades == Keys(Filter(ds, UpToDateBy(Select)))
  {
    CollectFails(ds, Select);
    if Selections(ds).Ok? {
      CollectContents(ds, Select);
    }
  }

  /** How a dependency comes to be kept: its candidates are the releases above its newest compatible one. */
  lemma SelectUpgradableShape(d: Dependency, ups: seq<Release>)
    requires Select(d) == Ok(Upgradable(ups))
    ensures Parse(d.scheme).Clauses?
    ensures var compat := Compatible(d.allVersions, Parse(d.scheme).clauses);
      && compat.Some? && compat.value != []
      && ups == Upgrades(d.allVersions, Maximum(compat.value).ver) && ups != []
  {
  }

  /** The newest candidate is the newest listed release. */
  lemma NewestCandidateIsNewest(d: Dependency, ups: seq<Release>)
    requires Select(d) == Ok(Upgradable(ups))
    ensures ups != []
    ensures ups[|ups| - 1] in d.allVersions
    ensures forall x :: x in d.allVersions ==> LessEq(x.ver, ups[|ups| - 1].ver)
  {
    SelectUpgradableShape(d, ups);
    var m := Maximum(Compatible(d.allVersions, Parse(d.scheme).clauses).value);
    NewestAboveMaximum(d.allVersions, m.ver, ups);
  }

  /** The last candidate above `m` is the newest listed release. */
  lemma NewestAboveMaximum(all: seq<Release>, m: Version, ups: seq<Release>)
    requires ups == Upgrades(all, m) && ups != []
    ensures ups[|ups| - 1] in all
    ensures forall x :: x in all ==> LessEq(x.ver, ups[|ups| - 1].ver)
  {
    var top := ups[|ups| - 1];
    UpgradesMembers(all, m, top);
    forall x | x in all ensures LessEq(x.ver, top.ver) {
      UpgradesMembers(all, m, x);
      if Less(m, x.ver) {
        var k :| 0 <= k < |ups| && ups[k] == x;
        SortedLast(ups, k);
      } else {
        NotLessEq(x.ver, m);
        BelowThenAbove(x.ver, m, top.ver);
      }
    }
  }

  lemma SortedLast(rs: seq<Release>, k: nat)
    requires Sorted(rs) && k < |rs|
    ensures LessEq(rs[k].ver, rs[|rs| - 1].ver)
  {
    if k < |rs| - 1 {
      assert LessEq(rs[k].ver, rs[|rs| - 1].ver);
    }
  }

  lemma BelowThenAbove(a: Version, b: Version, c: Version)
    requires LessEq(a, b) && Less(b, c)
    ensures LessEq(a, c)
  {
    if a != b {
      LessTransitive(a, b, c);
    }
  }

  /** Pinning a dependency to its newest listed release leaves nothing to upgrade. */
  lemma PinnedNewestIsUpToDate(d: Dependency, t: NumberText, m: Release)
    requires t != "" && d.scheme == Some("== " + t)
    requires m in d.allVersions && Components(t) == m.ver
    requires forall x :: x in d.allVersions ==> LessEq(x.ver, m.ver)
    ensures Select(d) == Ok(UpToDate)
  {
    var c := Clause(Eq, t);
    ParsePinned(t);
    assert [c][1..] == [];
    var compat := Filter(d.allVersions, Holding(c));
    assert Compatible(d.allVersions, [c]) == Some(compat);
    FilterMembership(d.allVersions, Holding(c), m);
    var mx := Maximum(compat);
    assert mx.ver == m.ver by {
      FilterMembership(d.allVersions, Holding(c), mx);
    }
    UpgradesMembers(d.allVersions, m.ver, m);
  }

  /** Pinning a kept dependency to its newest candidate leaves nothing to upgrade, provided the
      candidate's version string reads back as its version. */
  lemma PinnedNewestCandidateIsUpToDate(d: Dependency, ups: seq<Release>, t: NumberText)
    requires Select(d) == Ok(Upgradable(ups)) && ups != []
    requires t != "" && t == ups[|ups| - 1].text && Components(t) == ups[|ups| - 1].ver
    ensures Select(d.(scheme := Some("== " + t))) == Ok(UpToDate)
  {
    NewestCandidateIsNewest(d, ups);
    PinnedNewestIsUpToDate(d.(scheme := Some("== " + t)), t, ups[|ups| - 1]);
  }
}
