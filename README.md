# autoupgradedependencies: the upgrade decisions, in Dafny

`autoupgradedependencies.py` reads the `__depends__` dictionary of a CubicWeb cube's
`__pkginfo__.py` and asks PyPI for every release of each dependency. It then chooses the
dependencies that have newer releases than their constraint allows. For each of those it pins
the newest release and runs the project's test command, committing what passes. When the
newest release fails, it walks the candidates upward one by one and stops at the first failure.

This project models that decision logic and proves properties of it.

- `Conditions` models `parse_conditions`. A constraint such as `">=1.2,<2.0"` becomes an
  ordered list of operator/version clauses. The module also says what it means for a version
  to satisfy them all.
- `Selection` covers three things:
  - the extras stripping of `merge_depends_with_pypi_info`, including how PyPI answers are
    merged in;
  - the compatible-version loop, the maximum compatible release and the `dropwhile` that
    yields the candidates;
  - the keep/drop/no-upgrade classification of `filter_pkg_that_can_be_upgraded`.
- `Upgrade` models `try_to_upgrade_dependencies`.
  - A class `Upgrader` owns the dependencies on disk, the test runs, the commits and the
    summary lists.
  - Its methods change those fields step by step, as the program does: the newest candidate
    first, then the version-per-version `for`/`else` scan.
  - Each method is proved equal to a reference function (`Step`, `Scan`, `RunAll`), and the
    lemmas state what those functions guarantee.
- `Versions`, `Text` and `Seqs` model the library behaviour the core relies on:
  - the ordering of loose versions made of numbers;
  - Python's stable `sorted`;
  - `str.split`, `str.strip` and list filtering.

### How things are represented

- **Release.** A published release is its version string (`vstring`) plus the numeric
  components of that string. Components are compared the way Python compares lists, so a
  proper prefix is smaller.
- **Clause version.** A version written in a clause matches `[0-9.]*`. `Versions.Components`
  reads it like `LooseVersion` does: every maximal run of digits is a number, and the dots
  only separate the runs.
- **Disk.** The dependencies on disk are a map from key to the constraint text the entry holds.
  - Changing a version on disk writes `== <version>` for that key.
  - Restoring puts the original text back.
  - A commit appends the message and a snapshot of the disk.
- **Test command.** The test command is a function from the dependencies on disk to pass/fail.
- **`previous_version`.** It is a string, and the empty string stands for `None`. The code
  tests it for truthiness at line 233, so an empty version string counts as "no success yet".

### Behaviour the model keeps exactly as the code has it

- **Errors stop the whole selection.** A malformed constraint and a constraint that no release
  satisfies both raise from `filter_pkg_that_can_be_upgraded`. Nothing catches the exception, so
  the selection stops at that dependency. The model returns the first such error.
  - A clause that fails the pattern makes `re.match(...)` return `None`, so `.groups()` raises
    at :132.
  - An empty compatible list raises `IndexError` at :94.
  - A clause with an empty version, such as `"<="`, builds `LooseVersion("")`. Its constructor
    parses only a non-empty string, so the object never gets a `version` attribute. The first
    comparison at :92 then raises `AttributeError` inside `_cmp`. This happens only while some
    release is still in the list.
- **The partial-success commit names the failing version.** On the break path of the scan, the
  code writes `previous_version` to disk (:236). The commit message (:238) and the summary's
  `"to"` (:243) name the version that failed. `Upgrade.PartialCommitNamesFailingVersion` states
  this.
- **The total-failure record lists the candidates.** After a scan, the code records
  `possible_upgrades` in ascending order (:262). It records `[]` when the only candidate fails
  (:295).

## Model

| member | source | states |
|---|---|---|
| Conditions.ParseConditions | autoupgradedependencies.py:116-139 | the result is exactly the parse of the expression; the result is "no constraint" exactly when the expression is absent or empty |
| Conditions.ParseEach | autoupgradedependencies.py:131-137 | the loop over the pieces gives exactly the piece-by-piece parse: one clause per piece, in order, or the first piece that does not match |
| Conditions.Parse | autoupgradedependencies.py:116-139 | an expression is "no constraint" exactly when it is absent or empty |
| Conditions.MatchOperator | autoupgradedependencies.py:132 | the operator group matches one of `==`, `>=`, `<=`, `>`, `<` at the start, never `!=`, and prefers `<=` to `<` and `>=` to `>`; it fails exactly when none of them is a prefix |
| Conditions.NumberPrefix | autoupgradedependencies.py:132 | the version group captures the longest prefix made of digits and dots |
| Conditions.MatchClause | autoupgradedependencies.py:132 | a piece matches exactly when its operator matches, and the clause carries that operator |
| Conditions.SkipBlanks | autoupgradedependencies.py:132 | after the ` *` of the pattern, what remains is a suffix that does not start with a space |
| Conditions.SkipBlanksDropsSpaces | autoupgradedependencies.py:132 | everything ` *` skips is a space, so with `SkipBlanks` it drops exactly the run of leading spaces |
| Conditions.PieceClause | autoupgradedependencies.py:132 | a piece, once stripped, matches exactly when one of the operators starts it; the clause is never `!=` |
| Conditions.ParsePieces | autoupgradedependencies.py:131-137 | the loop over the pieces never yields "no constraint" |
| Conditions.MatchOperatorBlank | autoupgradedependencies.py:132 | an operator written before a space is matched as that operator, `<=` and `>=` included |
| Conditions.ParseSpaced | autoupgradedependencies.py:128-139 | a single clause written as operator, space and version parses back to that clause |
| Conditions.ParsePiecesClauses | autoupgradedependencies.py:131-137 | parsing succeeds exactly when every piece matches, and then yields one clause per piece, in order |
| Conditions.ParsePiecesMalformed | autoupgradedependencies.py:131-132 | a failed parse reports the first piece that does not match |
| Conditions.ParsedNeverNe | autoupgradedependencies.py:121-132 | `!=` is in the operator table but never comes out of parsing |
| Conditions.NotEqualIsMalformed | autoupgradedependencies.py:121-132 | a piece written with `!=` makes the whole expression fail |
| Conditions.ParseExpression | autoupgradedependencies.py:128-139 | parsing the written form of non-empty clauses without `!=` gives back the same clauses in the same order |
| Conditions.ParsePinned | autoupgradedependencies.py:132 | the constraint that a version write produces parses as a single equality with that version |
| Text.JoinSplit | autoupgradedependencies.py:131 | the pieces of `split(",")` joined by commas give back the expression |
| Text.SplitJoin | autoupgradedependencies.py:131 | splitting a join of comma-free pieces gives back those pieces |
| Text.Split | autoupgradedependencies.py:131 | `split(",")` yields at least one piece |
| Text.Strip | autoupgradedependencies.py:132 | `strip()` never lengthens a text, and what it returns neither starts nor ends with white space |
| Text.SplitPiecesLackSeparator | autoupgradedependencies.py:131 | no piece of `split(",")` holds a comma |
| Text.TrimStart | autoupgradedependencies.py:132 | the left half of `strip()` keeps a suffix that does not start with white space |
| Text.TrimStartRemovesSpace | autoupgradedependencies.py:132 | what it drops is white space only |
| Text.TrimEnd | autoupgradedependencies.py:132 | the right half keeps a prefix that does not end with white space |
| Text.TrimEndRemovesSpace | autoupgradedependencies.py:132 | what it drops is white space only |
| Text.StripUnspaced | autoupgradedependencies.py:132 | `strip()` leaves a text without surrounding white space unchanged |
| Versions.Sort | autoupgradedependencies.py:94-95 | `sorted` yields an ascending permutation of its input |
| Versions.SortStable | autoupgradedependencies.py:94-95 | `sorted` is stable: releases of equal version come out in the order they were listed |
| Versions.LessIrreflexive | autoupgradedependencies.py:92-96 | no version is smaller than itself |
| Versions.LessAsymmetric | autoupgradedependencies.py:92-96 | of two versions at most one is smaller than the other |
| Versions.LessTotal | autoupgradedependencies.py:94-96 | any two versions are equal or one is smaller |
| Versions.LessTransitive | autoupgradedependencies.py:94-96 | the version order is transitive |
| Versions.ComponentsRender | autoupgradedependencies.py:92 | reading the canonical string of a non-empty version gives back its components |
| Selection.PackageName | autoupgradedependencies.py:59 | the package name is the part of the key before its first `[`: a prefix without `[`, followed by `[` or the end |
| Selection.PackageNameExtras | autoupgradedependencies.py:59 | the extras after `[` never change the package name |
| Selection.MergeWithIndex | autoupgradedependencies.py:55-75 | the loop builds exactly the merged list, in declaration order |
| Selection.MergedEntries | autoupgradedependencies.py:58-73 | a dependency is merged, with its key, package name, constraint and releases, exactly when the index knows its package |
| Selection.KeepCounts | autoupgradedependencies.py:91-92 | when one pass of the clause loop does not raise, it keeps every occurrence of each release that satisfies the clause and none of the others |
| Selection.Compatible | autoupgradedependencies.py:89-92 | the compatible list holds only listed releases and is never longer |
| Selection.CompatibleVersions | autoupgradedependencies.py:89-92 | the clause loop computes exactly the clause-by-clause filter |
| Selection.CompatibleIsFilter | autoupgradedependencies.py:89-92 | when it does not raise, the loop keeps exactly the releases, in order, that satisfy every clause |
| Selection.CompatibleRaises | autoupgradedependencies.py:92 | the loop raises exactly when it meets a clause with an empty version while some release satisfies every clause before it |
| Selection.CompatibleDefined | autoupgradedependencies.py:92 | when every clause has a version, the loop never raises |
| Selection.Maximum | autoupgradedependencies.py:94 | the last element after sorting is a compatible release not smaller than any other |
| Selection.DropNotAbove | autoupgradedependencies.py:96 | `dropwhile` keeps a suffix of the sorted list that starts above the maximum, if it is not empty |
| Selection.DropNotAboveSorted | autoupgradedependencies.py:96 | on a sorted list, `dropwhile(x <= maximum)` keeps exactly the releases above the maximum |
| Selection.Upgrades | autoupgradedependencies.py:95-96 | the candidates are sorted, and hold every listed release above the maximum, as often as it is listed |
| Selection.UpgradesMembers | autoupgradedependencies.py:95-98 | a release is a candidate exactly when it is listed and newer than the maximum; there are none exactly when no listed release is newer |
| Selection.SelectUnpinned | autoupgradedependencies.py:83-87 | a dependency is dropped as unpinned exactly when its constraint is absent or empty |
| Selection.SelectUpgradable | autoupgradedependencies.py:89-100 | a kept dependency's candidates are non-empty, sorted, and are exactly the listed releases newer than the newest compatible one, which is not among them |
| Selection.SelectUpToDate | autoupgradedependencies.py:94-102 | an up-to-date dependency has no listed release newer than its newest compatible one |
| Selection.SelectErrors | autoupgradedependencies.py:83-94 | each error happens exactly in its case (unmatched piece, empty version, nothing compatible) and names the dependency |
| Selection.Select | autoupgradedependencies.py:83-102 | an error always names the dependency being selected |
| Selection.SelectOne | autoupgradedependencies.py:83-102 | one turn of the selection loop computes the decision for that dependency |
| Selection.FilterUpgradeable | autoupgradedependencies.py:78-113 | the loop computes exactly the collected selection, stopping at the first error |
| Selection.CollectContents | autoupgradedependencies.py:82-102 | the kept dependencies are exactly the upgradable ones, unchanged and in order, each with its own candidates; `no_upgrades` lists exactly the up-to-date keys, in order |
| Selection.CollectFails | autoupgradedependencies.py:82-102 | the selection fails exactly when some dependency fails, and then with the first failure |
| Selection.SelectionsMeaning | autoupgradedependencies.py:78-113 | the same two facts for the selection as the program runs it |
| Selection.NewestCandidateIsNewest | autoupgradedependencies.py:94-100 | the newest candidate is the newest listed release |
| Selection.PinnedNewestIsUpToDate | autoupgradedependencies.py:83-102 | a dependency pinned with `==` to its newest release is up to date |
| Selection.PinnedNewestCandidateIsUpToDate | autoupgradedependencies.py:83-102 | pinning a kept dependency to its newest candidate makes it up to date |
| Upgrade.Scan | autoupgradedependencies.py:222-281 | the version-per-version loop keeps every dependency on disk |
| Upgrade.Step | autoupgradedependencies.py:194-296 | one turn of the upgrade loop keeps every dependency on disk |
| Upgrade.RunAll | autoupgradedependencies.py:194-296 | the whole upgrade loop keeps every dependency on disk |
| Upgrade.Upgrader.constructor | autoupgradedependencies.py:187-192 | a session starts with the dependencies on disk and an empty summary |
| Upgrade.Upgrader.ChangeVersionOnDisk | autoupgradedependencies.py:143-148 | writes `== <version>` for that dependency and changes nothing else |
| Upgrade.Upgrader.LaunchTest | autoupgradedependencies.py:158-179 | runs the test command on the dependencies on disk and records the run |
| Upgrade.MessageNamesVersion | autoupgradedependencies.py:151 | for one dependency and one original constraint, two commit messages are equal exactly when they name the same version |
| Upgrade.Upgrader.HgCommit | autoupgradedependencies.py:150-156 | returns the message `[enh] upgrade <key> from '<before>' to '== <after>'` and commits the disk with it |
| Upgrade.Upgrader.Restore | autoupgradedependencies.py:285-289 | puts the original constraint back and changes nothing else |
| Upgrade.Upgrader.RecordPartial | autoupgradedependencies.py:238-246 | commits the disk with the message for the given version and appends a partial-success entry with the given remaining candidates; nothing else changes |
| Upgrade.Upgrader.GiveUp | autoupgradedependencies.py:252-263 | puts the original constraint back and appends a total-failure entry with the given candidates; nothing else changes |
| Upgrade.Upgrader.VersionPerVersion | autoupgradedependencies.py:218-281 | the `for`/`else` scan changes the session exactly as the function `Scan` says |
| Upgrade.Upgrader.UpgradeOne | autoupgradedependencies.py:195-296 | one turn of the upgrade loop changes the session exactly as the function `Step` says |
| Upgrade.Upgrader.Run | autoupgradedependencies.py:181-296 | the whole loop changes the session exactly as the function `RunAll` does over the processing order |
| Upgrade.Upgrader.RunInOrder | autoupgradedependencies.py:194-296 | the loop over the given order changes the session exactly as the function `RunAll` does |
| Upgrade.FirstFailureMeaning | autoupgradedependencies.py:222-233 | the scan's first failure is preceded by passing candidates only and fails, or is the end of the scan |
| Upgrade.ScanOutcome | autoupgradedependencies.py:222-281 | the scan in closed form from its first failure: no failure gives a commit of the version below the newest; a failure after a success pins the previous version but commits and records the failing one; a failure before any success restores the original |
| Upgrade.NewestFirst | autoupgradedependencies.py:199-206 | the first test of a dependency runs with its newest candidate pinned |
| Upgrade.NewestPasses | autoupgradedependencies.py:199-215 | when the newest candidate passes: one test, `== newest` on disk, one commit of that disk with its message, one full-success entry |
| Upgrade.SingleCandidateFails | autoupgradedependencies.py:283-296 | when a single candidate fails: the disk is as before, nothing is committed, and the total failure lists no candidates |
| Upgrade.FallbackScan | autoupgradedependencies.py:217-281 | when the newest of several candidates fails, the candidates below it are tried in ascending order up to the first failure, with the three outcomes of the scan, and one test run per candidate tried |
| Upgrade.FallbackTests | autoupgradedependencies.py:199-281 | the test runs of that case in full: the newest first, then each candidate from the oldest up, pinned alone on the disk as it was, with the constraint before and the version tried, up to and including the first failure |
| Upgrade.FallbackRuns | autoupgradedependencies.py:199-233 | the test log of that case is the newest's failing run followed by the runs of the scan on the disk as it was |
| Upgrade.ScanRunsLength | autoupgradedependencies.py:222-233 | the scan runs one test per candidate up to the first failure, the failing one included, and none for the newest |
| Upgrade.ScanRunsElements | autoupgradedependencies.py:222-233 | the scan's runs come in ascending order of the candidates, each pinned alone on the disk as it was |
| Upgrade.ScanTests | autoupgradedependencies.py:222-233 | the scan adds exactly those runs to the test log |
| Upgrade.PartialCommitNamesFailingVersion | autoupgradedependencies.py:233-248 | after a success, a failing candidate leaves the previous one on disk and in the commit, while the message and the summary name the failing one |
| Upgrade.ProcessingOrder | autoupgradedependencies.py:181-194 | the processing order holds the same dependencies as the input, as often |
| Upgrade.ProcessingOrderGroups | autoupgradedependencies.py:181-194 | the processing order is a permutation, with every `cubicweb-` dependency before every other, and each group in its original order |
| Upgrade.StepShape | autoupgradedependencies.py:194-296 | each turn adds one summary entry for its dependency and one commit per success; it touches only its own entry on disk, which ends with its original constraint or a pinned candidate |
| Upgrade.RunShape | autoupgradedependencies.py:194-296 | over a loop, every dependency gets exactly one summary entry; there is one commit per full or partial success and one disk snapshot per commit; other dependencies keep their constraint |
| Upgrade.CandidateKeysPartition | autoupgradedependencies.py:181-194 | the processing order names each dependency as often as the input does |
| Upgrade.UpgradeSession | autoupgradedependencies.py:181-296 | for a whole session: one summary entry per dependency, and as many commits as full and partial successes |
| Upgrade.FullSuccessIsUpToDate | autoupgradedependencies.py:199-215 | after a full success, selecting the dependency again finds it up to date |

## Left out

- `find_pkginfo` (:19-36) is not part of this model. It lists a directory and exits the process.
- `parse_pkginfo` and the RedBaron rewriting of `__pkginfo__.py` (:39-52, :143-148) are replaced by the map of constraint texts. The model covers neither reading the file nor `eval`.
- The PyPI request (:62-67) is replaced by a map from package name to releases. A name missing from the map stands for a 404 answer. The model does not capture network errors, other status codes or the JSON format.
- The test process and its log files (:158-179) are replaced by a pass/fail function of the dependencies on disk. Log file names, the working tree and test nondeterminism are left out.
- The `hg commit` subprocess (:150-156) is replaced by the message list and a snapshot of the disk. A failing `check_call` is not modelled.
- The progress and summary printing (:104-111 and :298-337) is output only; the summary loop at :313 even iterates the wrong list.
- `main` (:340-383) is not part of this model: argument parsing, the `hg diff` check, the tox warning and the exit codes.
- The session timestamp from `datetime.now()` (:185) only names log directories.
- `LooseVersion` is modelled only for versions made of numbers. Letters, and Python 3's error when comparing a number with a string, are left out. Published releases arrive already read into their components.
- Unicode details of `str.strip` beyond the listed white-space code points are left out.
- Dictionary semantics of `depends` are not modelled: dependencies are a sequence in insertion order, and the model does not require distinct keys.
- setup.py holds packaging metadata only.
