/** Trying the upgrades: dependencies whose name starts with `cubicweb-` go first; for each one the
    newest candidate is pinned and tested, and when that fails the candidates are tried in ascending
    order until one fails. Every success is committed and every outcome is recorded in the summary. */
module Upgrade {
  import opened Wrappers
  import opened Seqs
  import opened Text
  import opened Versions
  import opened Selection

  /** The test command: whether it exits with status 0 when the dependencies on disk are these. */
  type TestCommand = map<string, string> -> bool

  /** One run of the test command: the dependency being upgraded, its constraint before, the version
      tried, the dependencies on disk while it ran, and whether it passed. */
  datatype TestRun = TestRun(dependency: string, before: string, after: string, disk: map<string, string>, passed: bool)

  /** The entries of the summary. */
  datatype FullRecord = FullRecord(dependency: string, from: string, to: string)
  datatype PartialRecord = PartialRecord(dependency: string, from: string, to: string, possibleUpgrades: seq<Release>)
  datatype FailureRecord = FailureRecord(dependency: string, from: string, possibleUpgrades: seq<Release>)

  /** Everything the upgrade run changes: the constraint text of every dependency on disk, the test runs,
      the disk at every commit, the three summary lists and the commit messages. */
  datatype State = State(
    disk: map<string, string>,
    tests: seq<TestRun>,
    history: seq<map<string, string>>,
    full: seq<FullRecord>,
    partial: seq<PartialRecord>,
    total: seq<FailureRecord>,
    commits: seq<string>)

  /** A fresh run over the dependencies on disk. */
  function Initial(disk: map<string, string>): State {
    State(disk, [], [], [], [], [], [])
  }

  predicate IsCube(c: Candidate) {
    StartsWith(c.dep.key, "cubicweb-")
  }

  predicate IsNotCube(c: Candidate) {
    !IsCube(c)
  }

  /** The cubes first, then the other dependencies, each group in its original order. */
  function ProcessingOrder(cs: seq<Candidate>): (r: seq<Candidate>)
    ensures multiset(r) == multiset(cs)
  {
    FilterPartition(cs, IsCube, IsNotCube);
    Filter(cs, IsCube) + Filter(cs, IsNotCube)
  }

  /** The constraint text written for a pinned version. */
  function Pinned(version: string): string {
    "== " + version
  }

  /** The commit message of an upgrade. */
  function Message(key: string, before: string, after: string): string {
    "[enh] upgrade " + key + " from '" + before + "' to '== " + after + "'"
  }

  /** The message tells the version apart: for one dependency and one original constraint, two
      messages are equal exactly when they name the same version. */
  lemma MessageNamesVersion(key: string, before: string, a: string, b: string)
    ensures Message(key, before, a) == Message(key, before, b) <==> a == b
  {
    var p := "[enh] upgrade " + key + " from '" + before + "' to '== ";
    var ma, mb := Message(key, before, a), Message(key, before, b);
    if ma == mb {
      assert |a| == |b|;
      assert a == ma[|p|..|p| + |a|];
      assert b == mb[|p|..|p| + |b|];
    }
  }

  /** Writes a pinned version of one dependency to disk. */
  function Pin(st: State, key: string, version: string): State {
    st.(disk := st.disk[key := Pinned(version)])
  }

  /** Runs the test command on the dependencies on disk. */
  function Tested(test: TestCommand, st: State, key: string, before: string, after: string): State {
    st.(tests := st.tests + [TestRun(key, before, after, st.disk, test(st.disk))])
  }

  /** Commits the dependencies on disk with the message of an upgrade. */
  function Committed(st: State, key: string, before: string, after: string): State {
    st.(commits := st.commits + [Message(key, before, after)], history := st.history + [st.disk])
  }

  /** The version-per-version loop over every candidate but the newest, from position `i`, where
      `prev` is the last version that passed (empty when none has). A failure after a success pins the
      previous version again but commits and records the failing one; a failure before any success
      restores the original constraint; when no candidate fails, the last one tried is committed. */
  function Scan(test: TestCommand, st: State, key: string, init: string, ups: seq<Release>, i: nat, prev: string): (r: State)
    requires key in st.disk && 2 <= |ups| && i <= |ups| - 1
    ensures r.disk.Keys == st.disk.Keys
    decreases |ups| - 1 - i
  {
    if i == |ups| - 1 then
      var version := ups[i - 1].text;
      Committed(st, key, init, version).(partial := st.partial + [PartialRecord(key, init, version, ups[|ups| - 1..])])
    else
      var version := ups[i].text;
      var s1 := Tested(test, Pin(st, key, version), key, init, version);
      if test(s1.disk) then
        Scan(test, s1, key, init, ups, i + 1, version)
      else if prev != "" then
        var s2 := Pin(s1, key, prev);
        Committed(s2, key, init, version).(partial := s2.partial + [PartialRecord(key, init, version, ups[i..])])
      else
        s1.(disk := s1.disk[key := init], total := s1.total + [FailureRecord(key, init, ups)])
  }

  /** One turn of the version-per-version loop, unfolded: pin and test the candidate at `i`, then go on,
      or stop in one of the two ways. */
  lemma ScanTurn(test: TestCommand, st: State, key: string, init: string, ups: seq<Release>, i: nat, prev: string)
    requires key in st.disk && 2 <= |ups| && i < |ups| - 1
    ensures var version := ups[i].text;
      var s1 := Tested(test, Pin(st, key, version), key, init, version);
      && key in s1.disk
      && (test(s1.disk) ==> Scan(test, st, key, init, ups, i, prev) == Scan(test, s1, key, init, ups, i + 1, version))
      && (!test(s1.disk) && prev != "" ==>
            Scan(test, st, key, init, ups, i, prev)
            == Committed(Pin(s1, key, prev), key, init, version).(partial := s1.partial + [PartialRecord(key, init, version, ups[i..])]))
      && (!test(s1.disk) && prev == "" ==>
            Scan(test, st, key, init, ups, i, prev)
            == s1.(disk := s1.disk[key := init], total := s1.total + [FailureRecord(key, init, ups)]))
  {
  }

  /** The end of the version-per-version loop without a failure: commit the last candidate below the newest. */
  lemma ScanLast(test: TestCommand, st: State, key: string, init: string, ups: seq<Release>, i: nat, prev: string)
    requires key in st.disk && 2 <= |ups| && i == |ups| - 1
    ensures Scan(test, st, key, init, ups, i, prev)
      == Committed(st, key, init, ups[i - 1].text).(partial := st.partial + [PartialRecord(key, init, ups[i - 1].text, ups[|ups| - 1..])])
  {
  }

  /** One turn of the upgrade loop. */
  function Step(test: TestCommand, st: State, c: Candidate): (r: State)
    requires c.dep.key in st.disk && c.possibleUpgrades != []
    ensures r.disk.Keys == st.disk.Keys
  {
    var key := c.dep.key;
    var ups := c.possibleUpgrades;
    var init := st.disk[key];
    var newest := ups[|ups| - 1].text;
    var s1 := Tested(test, Pin(st, key, newest), key, init, newest);
    if test(s1.disk) then
      Committed(s1, key, init, newest).(full := s1.full + [FullRecord(key, init, newest)])
    else if |ups| > 1 then
      Scan(test, s1, key, init, ups, 0, "")
    else
      s1.(disk := s1.disk[key := init], total := s1.total + [FailureRecord(key, init, [])])
  }

  /** Every dependency to upgrade is on disk and has a candidate. */
  predicate Ready(disk: map<string, string>, cs: seq<Candidate>) {
    forall c :: c in cs ==> c.dep.key in disk && c.possibleUpgrades != []
  }

  /** The upgrade loop over `cs`, in that order. */
  function RunAll(test: TestCommand, st: State, cs: seq<Candidate>): (r: State)
    requires Ready(st.disk, cs)
    ensures r.disk.Keys == st.disk.Keys
  {
    if cs == [] then st
    else
      var r := RunAll(test, st, cs[..|cs| - 1]);
      Step(test, r, cs[|cs| - 1])
  }

  /** The upgrade session (`try_to_upgrade_dependencies`): its fields are the dependencies on disk,
      the test runs, the commits and the summary. */
  class Upgrader {
    var disk: map<string, string>
    var tests: seq<TestRun>
    var history: seq<map<string, string>>
    var full: seq<FullRecord>
    var partial: seq<PartialRecord>
    var total: seq<FailureRecord>
    var commits: seq<string>
    const test: TestCommand

    function Snapshot(): State
      reads this
    {
      State(disk, tests, history, full, partial, total, commits)
    }

    constructor (disk0: map<string, string>, test0: TestCommand)
      ensures Snapshot() == Initial(disk0) && test == test0
    {
      disk := disk0;
      tests := [];
      history := [];
      full := [];
      partial := [];
      total := [];
      commits := [];
      test := test0;
    }

    /** `change_dependency_version_on_disk`. */
    method ChangeVersionOnDisk(key: string, version: string)
      modifies this
      ensures Snapshot() == Pin(old(Snapshot()), key, version)
      ensures disk == old(disk)[key := Pinned(version)]
    {
      disk := disk[key := Pinned(version)];
    }

    /** `launch_test_command`. */
    method LaunchTest(key: string, before: string, after: string) returns (passed: bool)
      modifies this
      ensures passed == test(old(disk))
      ensures Snapshot() == Tested(test, old(Snapshot()), key, before, after)
      ensures disk == old(disk)
    {
      passed := test(disk);
      tests := tests + [TestRun(key, before, after, disk, passed)];
    }

    /** `hg_commit`. */
    method HgCommit(key: string, before: string, after: string) returns (message: string)
      modifies this
      ensures message == Message(key, before, after)
      ensures Snapshot() == Committed(old(Snapshot()), key, before, after)
      ensures disk == old(disk)
    {
      message := Message(key, before, after);
      commits := commits + [message];
      history := history + [disk];
    }

    /** Puts the original constraint of one dependency back on disk. */
    method Restore(key: string, initial: string)
      modifies this
      ensures Snapshot() == old(Snapshot()).(disk := old(disk)[key := initial])
      ensures disk == old(disk)[key := initial]
    {
      disk := disk[key := initial];
    }

    /** The version-per-version strategy, after the newest candidate failed. */
    method VersionPerVersion(key: string, initial: string, ups: seq<Release>)
      requires key in disk && 2 <= |ups|
      modifies this
      ensures Snapshot() == Scan(test, old(Snapshot()), key, initial, ups, 0, "")
    {
      ghost var s1 := Snapshot();
      var previous := "";
      var version := "";
      for number := 0 to |ups| - 1
        invariant key in disk
        invariant previous == (if number == 0 then "" else ups[number - 1].text)
        invariant number > 0 ==> version == ups[number - 1].text
        invariant Scan(test, Snapshot(), key, initial, ups, number, previous) == Scan(test, s1, key, initial, ups, 0, "")
      {
        ghost var st := Snapshot();
        version := ups[number].text;
        ChangeVersionOnDisk(key, version);
        var passed := LaunchTest(key, initial, version);
        ScanTurn(test, st, key, initial, ups, number, previous);
        if passed {
          previous := version;
        } else if previous != "" {
          ChangeVersionOnDisk(key, previous);
          RecordPartial(key, initial, version, ups[number..]);
          return;
        } else {
          GiveUp(key, initial, ups);
          return;
        }
      }
      ScanLast(test, Snapshot(), key, initial, ups, |ups| - 1, previous);
      RecordPartial(key, initial, version, ups[|ups| - 1..]);
    }

    /** Commits a partial success and adds it to the summary, with the candidates from the failing one on. */
    method RecordPartial(key: string, initial: string, version: string, rest: seq<Release>)
      modifies this
      ensures Snapshot() == Committed(old(Snapshot()), key, initial, version).(partial := old(partial) + [PartialRecord(key, initial, version, rest)])
    {
      var _ := HgCommit(key, initial, version);
      partial := partial + [PartialRecord(key, initial, version, rest)];
    }

    /** Gives up on a dependency: its original constraint goes back on disk and the summary records a total failure. */
    method GiveUp(key: string, initial: string, rest: seq<Release>)
      modifies this
      ensures Snapshot() == old(Snapshot()).(disk := old(disk)[key := initial], total := old(total) + [FailureRecord(key, initial, rest)])
    {
      Restore(key, initial);
      total := total + [FailureRecord(key, initial, rest)];
    }

    /** One turn of the upgrade loop: the newest candidate, then the version-per-version strategy. */
    method UpgradeOne(c: Candidate)
      requires c.dep.key in disk && c.possibleUpgrades != []
      modifies this
      ensures Snapshot() == Step(test, old(Snapshot()), c)
    {
      var key := c.dep.key;
      var ups := c.possibleUpgrades;
      var initial := disk[key];
      var maxPossible := ups[|ups| - 1].text;
      ChangeVersionOnDisk(key, maxPossible);
      var passed := LaunchTest(key, initial, maxPossible);
      if passed {
        var _ := HgCommit(key, initial, maxPossible);
        full := full + [FullRecord(key, initial, maxPossible)];
      } else if |ups| > 1 {
        VersionPerVersion(key, initial, ups);
      } else {
        GiveUp(key, initial, []);
      }
    }

    /** The whole upgrade loop: the cubes first, then the other dependencies. */
    method Run(cs: seq<Candidate>)
      requires Ready(disk, cs)
      modifies this
      ensures Snapshot() == RunAll(test, old(Snapshot()), ProcessingOrder(cs))
    {
      var cubes := Filter(cs, IsCube);
      var notCubes := Filter(cs, IsNotCube);
      ReadyOrder(disk, cs);
      RunInOrder(cubes + notCubes);
    }

    /** The upgrade loop over `order`, one dependency after the other. */
    method RunInOrder(order: seq<Candidate>)
      requires Ready(disk, order)
      modifies this
      ensures Snapshot() == RunAll(test, old(Snapshot()), order)
    {
      ghost var s0 := Snapshot();
      for i := 0 to |order|
        invariant disk.Keys == s0.disk.Keys
        invariant Ready(s0.disk, order[..i])
        invariant Snapshot() == RunAll(test, s0, order[..i])
      {
        RunAllSnoc(test, s0, order, i);
        UpgradeOne(order[i]);
      }
      assert order[..|order|] == order;
    }
  }

  /** The processing order holds only candidates of `cs`. */
  lemma ReadyOrder(disk: map<string, string>, cs: seq<Candidate>)
    requires Ready(disk, cs)
    ensures Ready(disk, ProcessingOrder(cs))
  {
    forall c | c in ProcessingOrder(cs) ensures c in cs {
      FilterMembership(cs, IsCube, c);
      FilterMembership(cs, IsNotCube, c);
    }
  }

  /** One more turn of the loop over a prefix of `cs`. */
  lemma RunAllSnoc(test: TestCommand, st: State, cs: seq<Candidate>, i: nat)
    requires Ready(st.disk, cs) && i < |cs|
    ensures Ready(st.disk, cs[..i]) && Ready(st.disk, cs[..i + 1])
    ensures cs[i].dep.key in st.disk && cs[i].possibleUpgrades != []
    ensures RunAll(test, st, cs[..i + 1]) == Step(test, RunAll(test, st, cs[..i]), cs[i])
  {
    assert cs[i] in cs;
    assert cs[..i + 1][..i] == cs[..i];
    assert forall c :: c in cs[..i + 1] ==> c in cs;
  }

  /** The position of the first candidate below the newest whose test fails when it is pinned on `d`,
      from position `i`; `|ups| - 1` when none fails. */
  function FirstFailure(test: TestCommand, d: map<string, string>, key: string, ups: seq<Release>, i: nat): (j: nat)
    requires i <= |ups| - 1
    ensures i <= j <= |ups| - 1
    decreases |ups| - 1 - i
  {
    if i == |ups| - 1 || !test(d[key := Pinned(ups[i].text)]) then i
    else FirstFailure(test, d, key, ups, i + 1)
  }

  /** `j` is the first failure exactly when every candidate before it passes and it fails (or is the end). */
  lemma {:induction false} FirstFailureMeaning(test: TestCommand, d: map<string, string>, key: string, ups: seq<Release>, i: nat)
    requires i <= |ups| - 1
    ensures var j := FirstFailure(test, d, key, ups, i);
      && (forall k :: i <= k < j ==> test(d[key := Pinned(ups[k].text)]))
      && (j < |ups| - 1 ==> !test(d[key := Pinned(ups[j].text)]))
    decreases |ups| - 1 - i
  {
    if i < |ups| - 1 && test(d[key := Pinned(ups[i].text)]) {
      FirstFailureMeaning(test, d, key, ups, i + 1);
    }
  }

  /** The tests pin `key`, so what `key` held before does not matter. */
  lemma {:induction false} FirstFailureUpdate(test: TestCommand, d: map<string, string>, key: string, x: string, ups: seq<Release>, i: nat)
    requires i <= |ups| - 1
    ensures FirstFailure(test, d[key := x], key, ups, i) == FirstFailure(test, d, key, ups, i)
    decreases |ups| - 1 - i
  {
    if i < |ups| - 1 {
      assert d[key := x][key := Pinned(ups[i].text)] == d[key := Pinned(ups[i].text)];
      FirstFailureUpdate(test, d, key, x, ups, i + 1);
    }
  }

  lemma UpdateTwice(d: map<string, string>, key: string, a: string, b: string)
    ensures d[key := a][key := b] == d[key := b]
  {
  }

  /** The test run of `version` pinned on top of `d`. */
  function Trial(test: TestCommand, d: map<string, string>, key: string, init: string, version: string): TestRun {
    var pinned := d[key := Pinned(version)];
    TestRun(key, init, version, pinned, test(pinned))
  }

  /** The test runs the version-per-version loop makes from position `i` on top of `d`: each candidate
      below the newest pinned alone, up to and including the first that fails. */
  function ScanRuns(test: TestCommand, d: map<string, string>, key: string, init: string, ups: seq<Release>, i: nat): (runs: seq<TestRun>)
    requires i <= |ups| - 1
    decreases |ups| - 1 - i
  {
    if i == |ups| - 1 then []
    else
      var run := Trial(test, d, key, init, ups[i].text);
      [run] + (if run.passed then ScanRuns(test, d, key, init, ups, i + 1) else [])
  }

  /** There is one run per candidate from `i` up to the first failure `j`: `j - i` passing ones and
      then, unless `j` is the newest, the failing one. */
  lemma {:induction false} ScanRunsLength(test: TestCommand, d: map<string, string>, key: string, init: string, ups: seq<Release>, i: nat)
    requires i <= |ups| - 1
    ensures var j := FirstFailure(test, d, key, ups, i);
      |ScanRuns(test, d, key, init, ups, i)| == j - i + (if j < |ups| - 1 then 1 else 0)
    decreases |ups| - 1 - i
  {
    if i < |ups| - 1 && test(d[key := Pinned(ups[i].text)]) {
      ScanRunsLength(test, d, key, init, ups, i + 1);
    }
  }

  /** The runs come in ascending order of the candidates from `i`, each pinned alone on top of `d`. */
  lemma {:induction false} ScanRunsElements(test: TestCommand, d: map<string, string>, key: string, init: string, ups: seq<Release>, i: nat)
    requires i <= |ups| - 1
    ensures var runs := ScanRuns(test, d, key, init, ups, i);
      && i + |runs| <= |ups|
      && forall k :: 0 <= k < |runs| ==> runs[k] == Trial(test, d, key, init, ups[i + k].text)
    decreases |ups| - 1 - i
  {
    if i < |ups| - 1 && test(d[key := Pinned(ups[i].text)]) {
      var run := Trial(test, d, key, init, ups[i].text);
      var rest := ScanRuns(test, d, key, init, ups, i + 1);
      ScanRunsElements(test, d, key, init, ups, i + 1);
      assert ScanRuns(test, d, key, init, ups, i) == [run] + rest;
      forall k | 0 < k < 1 + |rest| ensures ([run] + rest)[k] == Trial(test, d, key, init, ups[i + k].text) {
        assert ([run] + rest)[k] == rest[k - 1];
        assert i + 1 + (k - 1) == i + k;
      }
    }
  }

  /** Each run pins `key`, so what `key` held in `d` does not matter. */
  lemma {:induction false} ScanRunsRepinned(test: TestCommand, d: map<string, string>, key: string, init: string, x: string, ups: seq<Release>, i: nat)
    requires i <= |ups| - 1
    ensures ScanRuns(test, d[key := x], key, init, ups, i) == ScanRuns(test, d, key, init, ups, i)
    decreases |ups| - 1 - i
  {
    if i < |ups| - 1 {
      UpdateTwice(d, key, x, Pinned(ups[i].text));
      ScanRunsRepinned(test, d, key, init, x, ups, i + 1);
    }
  }

  /** The version-per-version loop adds exactly the runs of `ScanRuns` to the test log. */
  lemma {:induction false} ScanTests(test: TestCommand, st: State, key: string, init: string, ups: seq<Release>, i: nat, prev: string)
    requires key in st.disk && 2 <= |ups| && i <= |ups| - 1
    ensures Scan(test, st, key, init, ups, i, prev).tests == st.tests + ScanRuns(test, st.disk, key, init, ups, i)
    decreases |ups| - 1 - i
  {
    if i == |ups| - 1 {
      assert Scan(test, st, key, init, ups, i, prev).tests == st.tests;
      assert st.tests + [] == st.tests;
    } else if test(st.disk[key := Pinned(ups[i].text)]) {
      var version := ups[i].text;
      ScanTests(test, Tested(test, Pin(st, key, version), key, init, version), key, init, ups, i + 1, version);
      ScanTestsOn(test, st, key, init, ups, i, prev);
    } else {
      ScanStopsTests(test, st, key, init, ups, i, prev);
    }
  }

  /** The inductive step of `ScanTests`, when the candidate at `i` passes. */
  lemma ScanTestsOn(test: TestCommand, st: State, key: string, init: string, ups: seq<Release>, i: nat, prev: string)
    requires key in st.disk && 2 <= |ups| && i < |ups| - 1
    requires test(st.disk[key := Pinned(ups[i].text)])
    requires var s1 := Tested(test, Pin(st, key, ups[i].text), key, init, ups[i].text);
      Scan(test, s1, key, init, ups, i + 1, ups[i].text).tests == s1.tests + ScanRuns(test, s1.disk, key, init, ups, i + 1)
    ensures Scan(test, st, key, init, ups, i, prev).tests == st.tests + ScanRuns(test, st.disk, key, init, ups, i)
  {
    var version := ups[i].text;
    var run := Trial(test, st.disk, key, init, version);
    var rest := ScanRuns(test, st.disk, key, init, ups, i + 1);
    ScanGoesOn(test, st, key, init, ups, i, prev);
    ScanRunsRepinned(test, st.disk, key, init, Pinned(version), ups, i + 1);
    assert ScanRuns(test, st.disk, key, init, ups, i) == [run] + rest;
    assert (st.tests + [run]) + rest == st.tests + ([run] + rest);
  }

  /** A candidate that passes leaves the rest of the loop to the next one. */
  lemma ScanGoesOn(test: TestCommand, st: State, key: string, init: string, ups: seq<Release>, i: nat, prev: string)
    requires key in st.disk && 2 <= |ups| && i < |ups| - 1
    requires test(st.disk[key := Pinned(ups[i].text)])
    ensures var s1 := Tested(test, Pin(st, key, ups[i].text), key, init, ups[i].text);
      && s1.tests == st.tests + [Trial(test, st.disk, key, init, ups[i].text)]
      && Scan(test, st, key, init, ups, i, prev) == Scan(test, s1, key, init, ups, i + 1, ups[i].text)
  {
  }

  /** A candidate that fails ends the loop with its own run as the last one. */
  lemma ScanStopsTests(test: TestCommand, st: State, key: string, init: string, ups: seq<Release>, i: nat, prev: string)
    requires key in st.disk && 2 <= |ups| && i < |ups| - 1
    requires !test(st.disk[key := Pinned(ups[i].text)])
    ensures Scan(test, st, key, init, ups, i, prev).tests == st.tests + [Trial(test, st.disk, key, init, ups[i].text)]
  {
  }

  /** The effect of the version-per-version loop from position `i` when `j` is its first failure:
      when no candidate fails, the one below the newest is on disk and committed; when one fails after
      a success, the previous one is on disk but the failing one is named in the commit and the
      summary; when the very first one fails, the original constraint is back and nothing is committed. */
  ghost predicate ScanEffect(st: State, r: State, key: string, init: string, ups: seq<Release>, i: nat, j: nat)
    requires key in st.disk && 2 <= |ups| && i <= j <= |ups| - 1
  {
    var pv := if j == 0 then "" else ups[j - 1].text;
    && r.full == st.full
    && st.tests <= r.tests
    && |r.tests| == |st.tests| + (j - i) + (if j < |ups| - 1 then 1 else 0)
    && (j == |ups| - 1 ==>
          && r.disk == st.disk[key := Pinned(pv)]
          && r.commits == st.commits + [Message(key, init, pv)]
          && r.history == st.history + [r.disk]
          && r.partial == st.partial + [PartialRecord(key, init, pv, ups[j..])]
          && r.total == st.total)
    && (j < |ups| - 1 && pv != "" ==>
          && r.disk == st.disk[key := Pinned(pv)]
          && r.commits == st.commits + [Message(key, init, ups[j].text)]
          && r.history == st.history + [r.disk]
          && r.partial == st.partial + [PartialRecord(key, init, ups[j].text, ups[j..])]
          && r.total == st.total)
    && (j < |ups| - 1 && pv == "" ==>
          && r.disk == st.disk[key := init]
          && r.commits == st.commits
          && r.history == st.history
          && r.partial == st.partial
          && r.total == st.total + [FailureRecord(key, init, ups)])
  }

  /** The version-per-version loop in closed form. */
  lemma {:induction false} ScanOutcome(test: TestCommand, st: State, key: string, init: string, ups: seq<Release>, i: nat, prev: string)
    requires key in st.disk && 2 <= |ups| && i <= |ups| - 1
    requires prev == (if i == 0 then "" else ups[i - 1].text)
    requires i > 0 ==> st.disk[key] == Pinned(prev)
    ensures ScanEffect(st, Scan(test, st, key, init, ups, i, prev), key, init, ups, i, FirstFailure(test, st.disk, key, ups, i))
    decreases |ups| - 1 - i
  {
    if i == |ups| - 1 {
      ScanAtEnd(test, st, key, init, ups, i, prev);
    } else if test(st.disk[key := Pinned(ups[i].text)]) {
      var version := ups[i].text;
      var s1 := Tested(test, Pin(st, key, version), key, init, version);
      ScanOutcome(test, s1, key, init, ups, i + 1, version);
      FirstFailureUpdate(test, st.disk, key, Pinned(version), ups, i + 1);
      ScanPasses(test, st, s1, Scan(test, s1, key, init, ups, i + 1, version), key, init, ups, i, FirstFailure(test, st.disk, key, ups, i));
    } else {
      ScanFailsHere(test, st, key, init, ups, i, prev);
    }
  }

  lemma ScanAtEnd(test: TestCommand, st: State, key: string, init: string, ups: seq<Release>, i: nat, prev: string)
    requires key in st.disk && 2 <= |ups| && i == |ups| - 1
    requires prev == ups[i - 1].text && st.disk[key] == Pinned(prev)
    ensures ScanEffect(st, Scan(test, st, key, init, ups, i, prev), key, init, ups, i, i)
  {
    assert st.disk[key := Pinned(prev)] == st.disk;
  }

  lemma ScanPasses(test: TestCommand, st: State, s1: State, r: State, key: string, init: string, ups: seq<Release>, i: nat, j: nat)
    requires key in st.disk && 2 <= |ups| && i < j <= |ups| - 1
    requires s1 == Tested(test, Pin(st, key, ups[i].text), key, init, ups[i].text)
    requires ScanEffect(s1, r, key, init, ups, i + 1, j)
    ensures ScanEffect(st, r, key, init, ups, i, j)
  {
    var pv := if j == 0 then "" else ups[j - 1].text;
    UpdateTwice(st.disk, key, Pinned(ups[i].text), Pinned(pv));
    UpdateTwice(st.disk, key, Pinned(ups[i].text), init);
  }

  lemma ScanFailsHere(test: TestCommand, st: State, key: string, init: string, ups: seq<Release>, i: nat, prev: string)
    requires key in st.disk && 2 <= |ups| && i < |ups| - 1
    requires prev == (if i == 0 then "" else ups[i - 1].text)
    requires !test(st.disk[key := Pinned(ups[i].text)])
    ensures ScanEffect(st, Scan(test, st, key, init, ups, i, prev), key, init, ups, i, i)
  {
    UpdateTwice(st.disk, key, Pinned(ups[i].text), Pinned(prev));
    UpdateTwice(st.disk, key, Pinned(ups[i].text), init);
  }

  /** The newest candidate is always tried first, alone on top of the disk as it was. */
  lemma NewestFirst(test: TestCommand, st: State, c: Candidate)
    requires c.dep.key in st.disk && c.possibleUpgrades != []
    ensures var r := Step(test, st, c);
      var key := c.dep.key;
      var newest := c.possibleUpgrades[|c.possibleUpgrades| - 1].text;
      var d := st.disk[key := Pinned(newest)];
      && |r.tests| > |st.tests|
      && r.tests[..|st.tests|] == st.tests
      && r.tests[|st.tests|] == TestRun(key, st.disk[key], newest, d, test(d))
  {
    var key := c.dep.key;
    var ups := c.possibleUpgrades;
    var newest := ups[|ups| - 1].text;
    var s1 := Tested(test, Pin(st, key, newest), key, st.disk[key], newest);
    if !test(s1.disk) && |ups| > 1 {
      ScanOutcome(test, s1, key, st.disk[key], ups, 0, "");
      assert s1.tests <= Step(test, st, c).tests;
    }
  }

  /** When the newest candidate passes: one test, the newest pinned on disk, one commit of that disk. */
  lemma NewestPasses(test: TestCommand, st: State, c: Candidate)
    requires c.dep.key in st.disk && c.possibleUpgrades != []
    requires test(st.disk[c.dep.key := Pinned(c.possibleUpgrades[|c.possibleUpgrades| - 1].text)])
    ensures var r := Step(test, st, c);
      var key := c.dep.key;
      var init := st.disk[key];
      var newest := c.possibleUpgrades[|c.possibleUpgrades| - 1].text;
      && |r.tests| == |st.tests| + 1
      && r.disk == st.disk[key := Pinned(newest)]
      && r.commits == st.commits + [Message(key, init, newest)]
      && r.history == st.history + [r.disk]
      && r.full == st.full + [FullRecord(key, init, newest)]
      && r.partial == st.partial && r.total == st.total
  {
  }

  /** A single candidate that fails: the disk is as it was, nothing is committed, and the failure is
      recorded with no candidates. */
  lemma SingleCandidateFails(test: TestCommand, st: State, c: Candidate)
    requires c.dep.key in st.disk && |c.possibleUpgrades| == 1
    requires !test(st.disk[c.dep.key := Pinned(c.possibleUpgrades[0].text)])
    ensures var r := Step(test, st, c);
      && |r.tests| == |st.tests| + 1
      && r.disk == st.disk
      && r.commits == st.commits && r.history == st.history
      && r.full == st.full && r.partial == st.partial
      && r.total == st.total + [FailureRecord(c.dep.key, st.disk[c.dep.key], [])]
  {
    var key := c.dep.key;
    assert st.disk[key := Pinned(c.possibleUpgrades[0].text)][key := st.disk[key]] == st.disk;
  }

  /** When the newest of several candidates fails, the candidates below it are tried in ascending
      order up to the first failure `j`, with the three outcomes of the version-per-version loop. */
  lemma FallbackScan(test: TestCommand, st: State, c: Candidate)
    requires c.dep.key in st.disk && |c.possibleUpgrades| >= 2
    requires !test(st.disk[c.dep.key := Pinned(c.possibleUpgrades[|c.possibleUpgrades| - 1].text)])
    ensures var r := Step(test, st, c);
      var key := c.dep.key;
      var init := st.disk[key];
      var ups := c.possibleUpgrades;
      var j := FirstFailure(test, st.disk, key, ups, 0);
      && (forall k :: 0 <= k < j ==> test(st.disk[key := Pinned(ups[k].text)]))
      && (j < |ups| - 1 ==> !test(st.disk[key := Pinned(ups[j].text)]))
      && r.full == st.full
      && |r.tests| == |st.tests| + 1 + j + (if j < |ups| - 1 then 1 else 0)
      && (j == |ups| - 1 ==>
            && r.disk == st.disk[key := Pinned(ups[j - 1].text)]
            && r.commits == st.commits + [Message(key, init, ups[j - 1].text)]
            && r.history == st.history + [r.disk]
            && r.partial == st.partial + [PartialRecord(key, init, ups[j - 1].text, [ups[j]])]
            && r.total == st.total)
      && (j < |ups| - 1 && j > 0 && ups[j - 1].text != "" ==>
            && r.disk == st.disk[key := Pinned(ups[j - 1].text)]
            && r.commits == st.commits + [Message(key, init, ups[j].text)]
            && r.history == st.history + [r.disk]
            && r.partial == st.partial + [PartialRecord(key, init, ups[j].text, ups[j..])]
            && r.total == st.total)
      && (j < |ups| - 1 && (j == 0 || ups[j - 1].text == "") ==>
            && r.disk == st.disk
            && r.commits == st.commits && r.history == st.history
            && r.partial == st.partial
            && r.total == st.total + [FailureRecord(key, init, ups)])
  {
    var key := c.dep.key;
    var init := st.disk[key];
    var ups := c.possibleUpgrades;
    var newest := ups[|ups| - 1].text;
    var s1 := Tested(test, Pin(st, key, newest), key, init, newest);
    ScanOutcome(test, s1, key, init, ups, 0, "");
    FirstFailureUpdate(test, st.disk, key, Pinned(newest), ups, 0);
    FirstFailureMeaning(test, st.disk, key, ups, 0);
    var j := FirstFailure(test, st.disk, key, ups, 0);
    var pv := if j == 0 then "" else ups[j - 1].text;
    UpdateTwice(st.disk, key, Pinned(newest), Pinned(pv));
    UpdateTwice(st.disk, key, Pinned(newest), init);
    assert st.disk[key := init] == st.disk;
    assert ups[|ups| - 1..] == [ups[|ups| - 1]];
  }

  /** The test runs when the newest of several candidates fails: the newest, then the candidates from
      the oldest up, each pinned alone on the disk as it was, up to the first failure. */
  lemma FallbackTests(test: TestCommand, st: State, c: Candidate)
    requires c.dep.key in st.disk && |c.possibleUpgrades| >= 2
    requires !test(st.disk[c.dep.key := Pinned(c.possibleUpgrades[|c.possibleUpgrades| - 1].text)])
    ensures var r := Step(test, st, c);
      var key := c.dep.key;
      var init := st.disk[key];
      var ups := c.possibleUpgrades;
      var newest := ups[|ups| - 1].text;
      var j := FirstFailure(test, st.disk, key, ups, 0);
      && r.tests == st.tests + [TestRun(key, init, newest, st.disk[key := Pinned(newest)], false)]
                    + ScanRuns(test, st.disk, key, init, ups, 0)
      && |r.tests| == |st.tests| + 1 + j + (if j < |ups| - 1 then 1 else 0)
      && (forall k :: 0 <= k < |r.tests| - |st.tests| - 1 ==>
            r.tests[|st.tests| + 1 + k] == Trial(test, st.disk, key, init, ups[k].text))
  {
    var key := c.dep.key;
    var runs := ScanRuns(test, st.disk, key, st.disk[key], c.possibleUpgrades, 0);
    FallbackRuns(test, st, c);
    ScanRunsLength(test, st.disk, key, st.disk[key], c.possibleUpgrades, 0);
    ScanRunsElements(test, st.disk, key, st.disk[key], c.possibleUpgrades, 0);
    assert |Step(test, st, c).tests| == |st.tests| + 1 + |runs|;
    assert forall k :: 0 <= k < |runs| ==> Step(test, st, c).tests[|st.tests| + 1 + k] == runs[k];
  }

  /** The test log of that case as a sequence. */
  lemma FallbackRuns(test: TestCommand, st: State, c: Candidate)
    requires c.dep.key in st.disk && |c.possibleUpgrades| >= 2
    requires !test(st.disk[c.dep.key := Pinned(c.possibleUpgrades[|c.possibleUpgrades| - 1].text)])
    ensures var key := c.dep.key;
      var ups := c.possibleUpgrades;
      var newest := ups[|ups| - 1].text;
      Step(test, st, c).tests == st.tests + [TestRun(key, st.disk[key], newest, st.disk[key := Pinned(newest)], false)]
                                  + ScanRuns(test, st.disk, key, st.disk[key], ups, 0)
  {
    var key := c.dep.key;
    var init := st.disk[key];
    var ups := c.possibleUpgrades;
    var newest := ups[|ups| - 1].text;
    var s1 := Tested(test, Pin(st, key, newest), key, init, newest);
    assert Step(test, st, c) == Scan(test, s1, key, init, ups, 0, "");
    ScanTests(test, s1, key, init, ups, 0, "");
    ScanRunsRepinned(test, st.disk, key, init, Pinned(newest), ups, 0);
  }

  /** The partial-success quirk: when a candidate fails after an earlier one passed, the disk and the
      commit hold the previous candidate, while the commit message and the summary name the failing one. */
  lemma PartialCommitNamesFailingVersion(test: TestCommand, st: State, c: Candidate, j: nat)
    requires c.dep.key in st.disk && |c.possibleUpgrades| >= 2
    requires 0 < j < |c.possibleUpgrades| - 1 && c.possibleUpgrades[j - 1].text != ""
    requires !test(st.disk[c.dep.key := Pinned(c.possibleUpgrades[|c.possibleUpgrades| - 1].text)])
    requires forall k :: 0 <= k < j ==> test(st.disk[c.dep.key := Pinned(c.possibleUpgrades[k].text)])
    requires !test(st.disk[c.dep.key := Pinned(c.possibleUpgrades[j].text)])
    ensures var r := Step(test, st, c);
      var key := c.dep.key;
      var passed := c.possibleUpgrades[j - 1].text;
      var failed := c.possibleUpgrades[j].text;
      && key in r.disk && r.disk[key] == Pinned(passed)
      && |r.history| > 0 && key in r.history[|r.history| - 1] && r.history[|r.history| - 1][key] == Pinned(passed)
      && |r.commits| > 0 && r.commits[|r.commits| - 1] == Message(key, st.disk[key], failed)
      && |r.partial| > 0 && r.partial[|r.partial| - 1].to == failed
      && (passed != failed ==> r.disk[key] != Pinned(failed))
  {
    var key := c.dep.key;
    FirstFailureIs(test, st.disk, key, c.possibleUpgrades, 0, j);
    FallbackScan(test, st, c);
  }

  /** A position whose candidates before it pass and which fails is the first failure. */
  lemma {:induction false} FirstFailureIs(test: TestCommand, d: map<string, string>, key: string, ups: seq<Release>, i: nat, j: nat)
    requires i <= j < |ups| - 1
    requires forall k :: i <= k < j ==> test(d[key := Pinned(ups[k].text)])
    requires !test(d[key := Pinned(ups[j].text)])
    ensures FirstFailure(test, d, key, ups, i) == j
    decreases j - i
  {
    if i < j {
      FirstFailureIs(test, d, key, ups, i + 1, j);
    }
  }
  /** The cubes keep their order, then the other dependencies keep theirs: only the groups change. */
  lemma ProcessingOrderGroups(cs: seq<Candidate>)
    ensures var o := ProcessingOrder(cs);
      && multiset(o) == multiset(cs)
      && (forall i, j :: 0 <= i < j < |o| && IsCube(o[j]) ==> IsCube(o[i]))
      && Filter(o, IsCube) == Filter(cs, IsCube)
      && Filter(o, IsNotCube) == Filter(cs, IsNotCube)
  {
    ProcessingOrderFilters(cs);
    ProcessingOrderCubesFirst(cs);
  }

  /** The processing order has the same candidates, and filtering it gives each group back. */
  lemma ProcessingOrderFilters(cs: seq<Candidate>)
    ensures var o := ProcessingOrder(cs);
      && multiset(o) == multiset(cs)
      && Filter(o, IsCube) == Filter(cs, IsCube)
      && Filter(o, IsNotCube) == Filter(cs, IsNotCube)
  {
    var cubes := Filter(cs, IsCube);
    var others := Filter(cs, IsNotCube);
    FilterPartition(cs, IsCube, IsNotCube);
    FilterConcat(cubes, others, IsCube);
    FilterConcat(cubes, others, IsNotCube);
    FilterAll(cubes, IsCube);
    FilterNone(others, IsCube);
    FilterNone(cubes, IsNotCube);
    FilterAll(others, IsNotCube);
  }

  /** In the processing order a position holds a cube exactly when it comes before every other dependency. */
  lemma ProcessingOrderCubesFirst(cs: seq<Candidate>)
    ensures var o := ProcessingOrder(cs);
      forall i, j :: 0 <= i < j < |o| && IsCube(o[j]) ==> IsCube(o[i])
  {
    var cubes := Filter(cs, IsCube);
    var others := Filter(cs, IsNotCube);
    var o := cubes + others;
    forall i | 0 <= i < |o| ensures IsCube(o[i]) <==> i < |cubes| {
      if i < |cubes| {
        assert o[i] == cubes[i];
        assert o[i] in cubes;
      } else {
        assert o[i] == others[i - |cubes|];
        assert o[i] in others;
      }
    }
  }

  function FullKeys(rs: seq<FullRecord>): seq<string> {
    seq(|rs|, i requires 0 <= i < |rs| => rs[i].dependency)
  }

  function PartialKeys(rs: seq<PartialRecord>): seq<string> {
    seq(|rs|, i requires 0 <= i < |rs| => rs[i].dependency)
  }

  function FailureKeys(rs: seq<FailureRecord>): seq<string> {
    seq(|rs|, i requires 0 <= i < |rs| => rs[i].dependency)
  }

  /** The dependencies named in the summary, each as often as it has an entry. */
  function OutcomeKeys(st: State): multiset<string> {
    multiset(FullKeys(st.full)) + multiset(PartialKeys(st.partial)) + multiset(FailureKeys(st.total))
  }

  function CandidateKeys(cs: seq<Candidate>): seq<string> {
    seq(|cs|, i requires 0 <= i < |cs| => cs[i].dep.key)
  }

  /** What a turn of the upgrade loop for `c` leaves behind: exactly one summary entry, for its own
      dependency; a commit of the disk for each success, full or partial, and for nothing else; the
      other dependencies untouched on disk; and its own holding its original constraint or a pinned
      candidate. */
  ghost predicate StepShaped(st: State, r: State, c: Candidate)
    requires c.dep.key in st.disk
  {
    var key := c.dep.key;
    && OutcomeKeys(r) == OutcomeKeys(st) + multiset{key}
    && st.full <= r.full && st.partial <= r.partial && st.total <= r.total
    && |r.full| + |r.partial| + |r.total| == |st.full| + |st.partial| + |st.total| + 1
    && |r.commits| - |st.commits| == (|r.full| - |st.full|) + (|r.partial| - |st.partial|)
    && |r.history| - |st.history| == |r.commits| - |st.commits|
    && r.disk.Keys == st.disk.Keys
    && (forall k :: k in st.disk && k != key ==> r.disk[k] == st.disk[k])
    && (r.disk[key] == st.disk[key] || exists m :: 0 <= m < |c.possibleUpgrades| && r.disk[key] == Pinned(c.possibleUpgrades[m].text))
  }

  /** Every turn of the upgrade loop has that shape. */
  lemma StepShape(test: TestCommand, st: State, c: Candidate)
    requires c.dep.key in st.disk && c.possibleUpgrades != []
    ensures StepShaped(st, Step(test, st, c), c)
  {
    var key := c.dep.key;
    var ups := c.possibleUpgrades;
    if test(st.disk[key := Pinned(ups[|ups| - 1].text)]) {
      StepShapeFull(test, st, c);
    } else if |ups| == 1 {
      StepShapeSingle(test, st, c);
    } else {
      StepShapeScan(test, st, c);
    }
  }

  lemma StepShapeFull(test: TestCommand, st: State, c: Candidate)
    requires c.dep.key in st.disk && c.possibleUpgrades != []
    requires test(st.disk[c.dep.key := Pinned(c.possibleUpgrades[|c.possibleUpgrades| - 1].text)])
    ensures StepShaped(st, Step(test, st, c), c)
  {
    var r := Step(test, st, c);
    NewestPasses(test, st, c);
    FullKeysSnoc(st.full, r.full[|r.full| - 1]);
    assert r.disk[c.dep.key] == Pinned(c.possibleUpgrades[|c.possibleUpgrades| - 1].text);
  }

  lemma StepShapeSingle(test: TestCommand, st: State, c: Candidate)
    requires c.dep.key in st.disk && |c.possibleUpgrades| == 1
    requires !test(st.disk[c.dep.key := Pinned(c.possibleUpgrades[0].text)])
    ensures StepShaped(st, Step(test, st, c), c)
  {
    var r := Step(test, st, c);
    SingleCandidateFails(test, st, c);
    FailureKeysSnoc(st.total, r.total[|r.total| - 1]);
  }

  lemma StepShapeScan(test: TestCommand, st: State, c: Candidate)
    requires c.dep.key in st.disk && |c.possibleUpgrades| >= 2
    requires !test(st.disk[c.dep.key := Pinned(c.possibleUpgrades[|c.possibleUpgrades| - 1].text)])
    ensures StepShaped(st, Step(test, st, c), c)
  {
    var ups := c.possibleUpgrades;
    var j := FirstFailure(test, st.disk, c.dep.key, ups, 0);
    if j == |ups| - 1 || (j > 0 && ups[j - 1].text != "") {
      StepShapeScanPartial(test, st, c);
    } else {
      StepShapeScanTotal(test, st, c);
    }
  }

  lemma StepShapeScanPartial(test: TestCommand, st: State, c: Candidate)
    requires c.dep.key in st.disk && |c.possibleUpgrades| >= 2
    requires !test(st.disk[c.dep.key := Pinned(c.possibleUpgrades[|c.possibleUpgrades| - 1].text)])
    requires var j := FirstFailure(test, st.disk, c.dep.key, c.possibleUpgrades, 0);
      j == |c.possibleUpgrades| - 1 || (j > 0 && c.possibleUpgrades[j - 1].text != "")
    ensures StepShaped(st, Step(test, st, c), c)
  {
    var r := Step(test, st, c);
    var j := FirstFailure(test, st.disk, c.dep.key, c.possibleUpgrades, 0);
    FallbackScan(test, st, c);
    PartialShaped(st, r, c, j - 1, r.partial[|r.partial| - 1]);
  }

  /** A turn that ends with one more partial success, one commit, and a candidate pinned on disk. */
  lemma PartialShaped(st: State, r: State, c: Candidate, m: nat, rec: PartialRecord)
    requires c.dep.key in st.disk && m < |c.possibleUpgrades|
    requires rec.dependency == c.dep.key
    requires r.disk == st.disk[c.dep.key := Pinned(c.possibleUpgrades[m].text)]
    requires r.full == st.full && r.total == st.total && r.partial == st.partial + [rec]
    requires |r.commits| == |st.commits| + 1 && |r.history| == |st.history| + 1
    ensures StepShaped(st, r, c)
  {
    PartialKeysSnoc(st.partial, rec);
  }

  lemma StepShapeScanTotal(test: TestCommand, st: State, c: Candidate)
    requires c.dep.key in st.disk && |c.possibleUpgrades| >= 2
    requires !test(st.disk[c.dep.key := Pinned(c.possibleUpgrades[|c.possibleUpgrades| - 1].text)])
    requires var j := FirstFailure(test, st.disk, c.dep.key, c.possibleUpgrades, 0);
      j < |c.possibleUpgrades| - 1 && (j == 0 || c.possibleUpgrades[j - 1].text == "")
    ensures StepShaped(st, Step(test, st, c), c)
  {
    var r := Step(test, st, c);
    FallbackScan(test, st, c);
    FailureKeysSnoc(st.total, r.total[|r.total| - 1]);
  }

  lemma FullKeysSnoc(rs: seq<FullRecord>, x: FullRecord)
    ensures FullKeys(rs + [x]) == FullKeys(rs) + [x.dependency]
  {
  }

  lemma PartialKeysSnoc(rs: seq<PartialRecord>, x: PartialRecord)
    ensures PartialKeys(rs + [x]) == PartialKeys(rs) + [x.dependency]
  {
  }

  lemma FailureKeysSnoc(rs: seq<FailureRecord>, x: FailureRecord)
    ensures FailureKeys(rs + [x]) == FailureKeys(rs) + [x.dependency]
  {
  }

  lemma CandidateKeysSnoc(cs: seq<Candidate>, c: Candidate)
    ensures CandidateKeys(cs + [c]) == CandidateKeys(cs) + [c.dep.key]
  {
  }

  /** Over a whole loop: every dependency gets exactly one summary entry, there is one commit per
      success, full or partial, one disk snapshot per commit, and dependencies not upgraded keep
      their constraint. */
  lemma {:induction false} RunShape(test: TestCommand, st: State, cs: seq<Candidate>)
    requires Ready(st.disk, cs)
    ensures var r := RunAll(test, st, cs);
      && OutcomeKeys(r) == OutcomeKeys(st) + multiset(CandidateKeys(cs))
      && |r.full| + |r.partial| + |r.total| == |st.full| + |st.partial| + |st.total| + |cs|
      && |r.commits| - |st.commits| == (|r.full| - |st.full|) + (|r.partial| - |st.partial|)
      && |r.history| - |st.history| == |r.commits| - |st.commits|
      && (forall k :: k in st.disk && k !in CandidateKeys(cs) ==> r.disk[k] == st.disk[k])
  {
    if cs != [] {
      var init := cs[..|cs| - 1];
      var c := cs[|cs| - 1];
      assert cs == init + [c];
      assert Ready(st.disk, init);
      RunShape(test, st, init);
      var mid := RunAll(test, st, init);
      StepShape(test, mid, c);
      CandidateKeysSnoc(init, c);
      forall k | k in st.disk && k !in CandidateKeys(cs) ensures RunAll(test, st, cs).disk[k] == st.disk[k] {
        assert k !in CandidateKeys(init);
        assert k != c.dep.key;
      }
    }
  }

  lemma CandidateKeysConcat(a: seq<Candidate>, b: seq<Candidate>)
    ensures CandidateKeys(a + b) == CandidateKeys(a) + CandidateKeys(b)
  {
  }

  /** Splitting the candidates into cubes and the others splits their keys. */
  lemma {:induction false} CandidateKeysSplit(cs: seq<Candidate>)
    ensures multiset(CandidateKeys(Filter(cs, IsCube))) + multiset(CandidateKeys(Filter(cs, IsNotCube))) == multiset(CandidateKeys(cs))
  {
    if cs != [] {
      var c, t := cs[0], cs[1..];
      CandidateKeysSplit(t);
      assert cs == [c] + t;
      CandidateKeysConcat([c], t);
      if IsCube(c) {
        assert Filter(cs, IsCube) == [c] + Filter(t, IsCube);
        assert Filter(cs, IsNotCube) == Filter(t, IsNotCube);
        CandidateKeysConcat([c], Filter(t, IsCube));
      } else {
        assert Filter(cs, IsCube) == Filter(t, IsCube);
        assert Filter(cs, IsNotCube) == [c] + Filter(t, IsNotCube);
        CandidateKeysConcat([c], Filter(t, IsNotCube));
      }
    }
  }

  /** The processing order names the same keys as the candidates, as often. */
  lemma CandidateKeysPartition(cs: seq<Candidate>)
    ensures multiset(CandidateKeys(ProcessingOrder(cs))) == multiset(CandidateKeys(cs))
  {
    CandidateKeysConcat(Filter(cs, IsCube), Filter(cs, IsNotCube));
    CandidateKeysSplit(cs);
  }

  /** A whole upgrade session from the disk as declared: every dependency to upgrade, cubes first,
      gets exactly one summary entry; the number of commits is the number of full and partial
      successes; dependencies not upgraded keep their constraint. */
  lemma UpgradeSession(test: TestCommand, disk: map<string, string>, cs: seq<Candidate>)
    requires Ready(disk, cs)
    ensures var r := RunAll(test, Initial(disk), ProcessingOrder(cs));
      && OutcomeKeys(r) == multiset(CandidateKeys(cs))
      && |r.full| + |r.partial| + |r.total| == |cs|
      && |r.commits| == |r.full| + |r.partial|
      && |r.history| == |r.commits|
      && r.disk.Keys == disk.Keys
      && (forall k :: k in disk && k !in CandidateKeys(cs) ==> r.disk[k] == disk[k])
  {
    var o := ProcessingOrder(cs);
    ReadyOrder(disk, cs);
    RunShape(test, Initial(disk), o);
    SessionKeys(cs);
  }

  /** The processing order has as many candidates as `cs`, and names no key that `cs` does not. */
  lemma SessionKeys(cs: seq<Candidate>)
    ensures |ProcessingOrder(cs)| == |cs|
    ensures multiset(CandidateKeys(ProcessingOrder(cs))) == multiset(CandidateKeys(cs))
    ensures forall k :: k !in CandidateKeys(cs) ==> k !in CandidateKeys(ProcessingOrder(cs))
  {
    var o := ProcessingOrder(cs);
    ProcessingOrderFilters(cs);
    CandidateKeysPartition(cs);
    assert |o| == |multiset(o)| == |cs|;
    forall k | k !in CandidateKeys(cs) ensures k !in CandidateKeys(o) {
      assert k !in multiset(CandidateKeys(cs));
    }
  }

  /** Running again after a full success finds nothing to upgrade: the pinned newest candidate is the
      newest listed release, provided its version string reads back as its version. */
  lemma FullSuccessIsUpToDate(test: TestCommand, st: State, d: Dependency, ups: seq<Release>)
    requires Select(d) == Ok(Upgradable(ups)) && ups != []
    requires d.key in st.disk
    requires IsNumberText(ups[|ups| - 1].text) && ups[|ups| - 1].text != ""
    requires Components(ups[|ups| - 1].text) == ups[|ups| - 1].ver
    requires test(st.disk[d.key := Pinned(ups[|ups| - 1].text)])
    ensures Select(d.(scheme := Some(Step(test, st, Candidate(d, ups)).disk[d.key]))) == Ok(UpToDate)
  {
    NewestPasses(test, st, Candidate(d, ups));
    PinnedNewestCandidateIsUpToDate(d, ups, ups[|ups| - 1].text);
  }
}
