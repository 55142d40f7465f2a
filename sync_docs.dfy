/** `sync_docs`: sorting the repositories into the updated, skipped and failed
    buckets of the sync report. */
module SyncDocs {
  import opened Common
  import opened Seqs
  import opened Staleness
  import opened DocWorker

  /** A repository directory that exists under the repositories directory: its
      checkout, and the exception the documentation worker raises on it, if any. */
  datatype LocalRepo = LocalRepo(checkout: Checkout, workerFault: Option<string>)

  /** An entry of `need_update`: a stale repository and its directory. */
  datatype Pending = Pending(name: string, local: LocalRepo)

  datatype UpdatedEntry = UpdatedEntry(repo: string, changes: seq<string>, docs: seq<string>)
  datatype FailedEntry = FailedEntry(repo: string, error: string)

  /** The report `sync_docs` returns. */
  datatype Report = Report(total: nat, updated: seq<UpdatedEntry>, skipped: seq<string>, failed: seq<FailedEntry>)

  /** Whether the repository called `name` is stale; its directory must exist. */
  predicate Stale(disk: map<string, LocalRepo>, name: string, force: bool, fromIso: string -> Option<int>)
    requires name in disk
  {
    NeedsUpdate(disk[name].checkout, force, fromIso)
  }

  /** `need_update` after the first loop: the repositories whose directory
      exists and that are stale, in input order. */
  function Candidates(repos: seq<Repo>, disk: map<string, LocalRepo>, force: bool, fromIso: string -> Option<int>): seq<Pending> {
    if repos == [] then []
    else
      var init := Candidates(repos[..|repos| - 1], disk, force, fromIso);
      var name := repos[|repos| - 1].name;
      if name in disk && Stale(disk, name, force, fromIso) then init + [Pending(name, disk[name])] else init
  }

  /** The skipped bucket after the first loop: the repositories whose directory
      exists and that are not stale, in input order. */
  function SkippedNames(repos: seq<Repo>, disk: map<string, LocalRepo>, force: bool, fromIso: string -> Option<int>): seq<string> {
    if repos == [] then []
    else
      var init := SkippedNames(repos[..|repos| - 1], disk, force, fromIso);
      var name := repos[|repos| - 1].name;
      if name in disk && !Stale(disk, name, force, fromIso) then init + [name] else init
  }

  /** The names of the repositories whose directory exists, in input order. */
  function PresentNames(repos: seq<Repo>, disk: map<string, LocalRepo>): (r: seq<string>)
    ensures forall n :: n in r ==> n in disk
    ensures |r| <= |repos|
    ensures |r| == |repos| <==> forall i :: 0 <= i < |repos| ==> repos[i].name in disk
  {
    if repos == [] then []
    else
      var init := PresentNames(repos[..|repos| - 1], disk);
      var name := repos[|repos| - 1].name;
      assert forall i :: 0 <= i < |repos| - 1 ==> repos[..|repos| - 1][i] == repos[i];
      if name in disk then init + [name] else init
  }

  /** The worker's result for a stale repository, when the worker does not raise. */
  function AsUpdated(p: Pending): Option<UpdatedEntry> {
    match p.local.workerFault
    case Some(_) => None
    case None =>
      var result := ProcessRepoDocs(p.name, p.local.checkout.files.Keys);
      Some(UpdatedEntry(result.name, result.changes, result.docsUpdated))
  }

  /** The failure recorded for a stale repository, when the worker raises. */
  function AsFailed(p: Pending): Option<FailedEntry> {
    match p.local.workerFault
    case Some(e) => Some(FailedEntry(p.name, e))
    case None => None
  }

  function PendingName(p: Pending): Option<string> { Some(p.name) }
  function UpdatedName(e: UpdatedEntry): Option<string> { Some(e.repo) }
  function FailedName(e: FailedEntry): Option<string> { Some(e.repo) }

  /** The report `sync_docs` returns when the workers for `need_update` complete
      in the order `order`. It does not depend on `dry_run`. */
  function SyncReport(repos: seq<Repo>, disk: map<string, LocalRepo>, force: bool,
                      fromIso: string -> Option<int>, order: seq<nat>): Report
    requires IsOrder(order, |Candidates(repos, disk, force, fromIso)|)
  {
    var need := Candidates(repos, disk, force, fromIso);
    OrderBelow(order, |need|);
    var done := Pick(need, order);
    Report(|repos|, Collect(done, AsUpdated), SkippedNames(repos, disk, force, fromIso), Collect(done, AsFailed))
  }

  /** `sync_docs`. The first loop drops repositories without a directory and
      splits the rest into `need_update` and `skipped`; when nothing is stale the
      report is returned at once; otherwise the worker results are taken in the
      order the workers complete, `order`, and each lands in `updated`, or in
      `failed` when the worker raised. The dry-run and normal branches record
      the same entry, so the report is the same either way. */
  method SyncDocs(repos: seq<Repo>, disk: map<string, LocalRepo>, force: bool, dryRun: bool,
                  fromIso: string -> Option<int>, order: seq<nat>) returns (report: Report)
    requires IsOrder(order, |Candidates(repos, disk, force, fromIso)|)
    ensures report == SyncReport(repos, disk, force, fromIso, order)
  {
    report := Report(|repos|, [], [], []);
    var needUpdate: seq<Pending> := [];
    for i := 0 to |repos|
      invariant needUpdate == Candidates(repos[..i], disk, force, fromIso)
      invariant report == Report(|repos|, [], SkippedNames(repos[..i], disk, force, fromIso), [])
    {
      FirstLoopStep(repos, i, disk, force, fromIso);
      var name := repos[i].name;
      if name !in disk {
        continue;
      }
      if Stale(disk, name, force, fromIso) {
        needUpdate := needUpdate + [Pending(name, disk[name])];
      } else {
        report := report.(skipped := report.skipped + [name]);
      }
    }
    assert repos[..|repos|] == repos;
    OrderBelow(order, |needUpdate|);

    if needUpdate == [] {
      return;
    }

    report := CollectResults(report, needUpdate, order, dryRun);
  }

  /** The `as_completed` loop of `sync_docs`: the worker results for
      `needUpdate`, taken in the order `order` in which the workers complete,
      are appended to `updated`, or to `failed` when the worker raised. */
  method CollectResults(report0: Report, needUpdate: seq<Pending>, order: seq<nat>, dryRun: bool) returns (report: Report)
    requires Below(order, |needUpdate|)
    requires report0.updated == [] && report0.failed == []
    ensures report == report0.(updated := Collect(Pick(needUpdate, order), AsUpdated),
                               failed := Collect(Pick(needUpdate, order), AsFailed))
  {
    report := report0;
    ghost var done: seq<Pending> := [];
    for k := 0 to |order|
      invariant done == Pick(needUpdate, order[..k])
      invariant report == report0.(updated := Collect(done, AsUpdated), failed := Collect(done, AsFailed))
    {
      var p := needUpdate[order[k]];
      report := RecordResult(report, p, dryRun);
      assert Collect(done + [p], AsUpdated) == Collect(done, AsUpdated) + (if AsUpdated(p).Some? then [AsUpdated(p).value] else []) by {
        CollectSnoc(done, p, AsUpdated);
      }
      assert Collect(done + [p], AsFailed) == Collect(done, AsFailed) + (if AsFailed(p).Some? then [AsFailed(p).value] else []) by {
        CollectSnoc(done, p, AsFailed);
      }
      PickSnoc(needUpdate, order, k);
      done := done + [p];
    }
    assert order[..|order|] == order;
  }

  /** The body of the `as_completed` loop for one completed worker: its result
      is appended to `updated`, or its exception to `failed`. */
  method RecordResult(report0: Report, p: Pending, dryRun: bool) returns (report: Report)
    ensures report == report0.(updated := report0.updated + (if AsUpdated(p).Some? then [AsUpdated(p).value] else []),
                               failed := report0.failed + (if AsFailed(p).Some? then [AsFailed(p).value] else []))
  {
    report := report0;
    match p.local.workerFault {
      case Some(e) =>
        report := report.(failed := report.failed + [FailedEntry(p.name, e)]);
      case None =>
        var result := ProcessRepoDocs(p.name, p.local.checkout.files.Keys);
        if dryRun {
          report := report.(updated := report.updated + [UpdatedEntry(result.name, result.changes, result.docsUpdated)]);
        } else {
          report := report.(updated := report.updated + [UpdatedEntry(result.name, result.changes, result.docsUpdated)]);
        }
    }
  }

  /** One pass of the first loop of `sync_docs`. */
  lemma FirstLoopStep(repos: seq<Repo>, i: nat, disk: map<string, LocalRepo>, force: bool, fromIso: string -> Option<int>)
    requires i < |repos|
    ensures var name := repos[i].name;
      Candidates(repos[..i + 1], disk, force, fromIso)
      == (if name in disk && Stale(disk, name, force, fromIso)
          then Candidates(repos[..i], disk, force, fromIso) + [Pending(name, disk[name])]
          else Candidates(repos[..i], disk, force, fromIso))
    ensures var name := repos[i].name;
      SkippedNames(repos[..i + 1], disk, force, fromIso)
      == (if name in disk && !Stale(disk, name, force, fromIso)
          then SkippedNames(repos[..i], disk, force, fromIso) + [name]
          else SkippedNames(repos[..i], disk, force, fromIso))
  {
    assert repos[..i + 1][..i] == repos[..i];
  }

  /** The first loop sends every repository whose directory exists either to
      `skipped` or to `need_update`. */
  lemma {:induction false} FirstLoopSplits(repos: seq<Repo>, disk: map<string, LocalRepo>, force: bool, fromIso: string -> Option<int>)
    ensures multiset(SkippedNames(repos, disk, force, fromIso))
            + multiset(Collect(Candidates(repos, disk, force, fromIso), PendingName))
            == multiset(PresentNames(repos, disk))
  {
    if repos != [] {
      var init := repos[..|repos| - 1];
      var name := repos[|repos| - 1].name;
      var sk, ca, pr := SkippedNames(init, disk, force, fromIso), Candidates(init, disk, force, fromIso), PresentNames(init, disk);
      var cn := Collect(ca, PendingName);
      assert multiset(sk) + multiset(cn) == multiset(pr) by {
        FirstLoopSplits(init, disk, force, fromIso);
      }
      var sk', cn', pr' := SkippedNames(repos, disk, force, fromIso),
                           Collect(Candidates(repos, disk, force, fromIso), PendingName), PresentNames(repos, disk);
      if name !in disk {
        assert sk' == sk && cn' == cn && pr' == pr;
      } else if Stale(disk, name, force, fromIso) {
        assert sk' == sk && pr' == pr + [name];
        assert cn' == cn + [name] by {
          var p := Pending(name, disk[name]);
          assert Candidates(repos, disk, force, fromIso) == ca + [p];
          CollectSnoc(ca, p, PendingName);
        }
        AddToBoth(sk, cn, pr, name);
      } else {
        assert sk' == sk + [name] && cn' == cn && pr' == pr + [name];
        AddToBoth(sk, cn, pr, name);
      }
    }
  }

  /** Each worker outcome lands in exactly one of `updated` and `failed`, under its repository's name. */
  lemma {:induction false} OutcomesSplit(ps: seq<Pending>)
    ensures multiset(Collect(Collect(ps, AsUpdated), UpdatedName))
            + multiset(Collect(Collect(ps, AsFailed), FailedName))
            == multiset(Collect(ps, PendingName))
  {
    if ps != [] {
      var init := ps[..|ps| - 1];
      var p := ps[|ps| - 1];
      var u, f := Collect(init, AsUpdated), Collect(init, AsFailed);
      var un, fn, pn := Collect(u, UpdatedName), Collect(f, FailedName), Collect(init, PendingName);
      assert multiset(un) + multiset(fn) == multiset(pn) by {
        OutcomesSplit(init);
      }
      assert Collect(ps, PendingName) == pn + [p.name];
      match p.local.workerFault {
        case Some(err) =>
          var e := FailedEntry(p.name, err);
          assert Collect(ps, AsUpdated) == u;
          assert Collect(ps, AsFailed) == f + [e];
          assert Collect(f + [e], FailedName) == fn + [p.name] by {
            CollectSnoc(f, e, FailedName);
          }
          AddToBoth(un, fn, pn, p.name);
        case None =>
          var e := AsUpdated(p).value;
          assert e.repo == p.name;
          assert Collect(ps, AsFailed) == f;
          assert Collect(ps, AsUpdated) == u + [e];
          assert Collect(u + [e], UpdatedName) == un + [p.name] by {
            CollectSnoc(u, e, UpdatedName);
          }
          AddToBoth(un, fn, pn, p.name);
      }
    }
  }

  /** Every repository whose directory exists appears exactly once across the
      three buckets (counted with multiplicity), whatever order the workers
      complete in; a repository without a directory appears in none. */
  lemma ReportPartition(repos: seq<Repo>, disk: map<string, LocalRepo>, force: bool,
                        fromIso: string -> Option<int>, order: seq<nat>)
    requires IsOrder(order, |Candidates(repos, disk, force, fromIso)|)
    ensures var r := SyncReport(repos, disk, force, fromIso, order);
      multiset(r.skipped) + multiset(Collect(r.updated, UpdatedName)) + multiset(Collect(r.failed, FailedName))
      == multiset(PresentNames(repos, disk))
  {
    var need := Candidates(repos, disk, force, fromIso);
    PickOrder(need, order);
    var done := Pick(need, order);
    OutcomesSplit(done);
    CollectPerm(done, need, PendingName);
    FirstLoopSplits(repos, disk, force, fromIso);
  }

  /** `len(updated) + len(skipped) + len(failed)` never exceeds `total`, and
      equals it exactly when every repository's directory exists. */
  lemma ReportCounts(repos: seq<Repo>, disk: map<string, LocalRepo>, force: bool,
                     fromIso: string -> Option<int>, order: seq<nat>)
    requires IsOrder(order, |Candidates(repos, disk, force, fromIso)|)
    ensures var r := SyncReport(repos, disk, force, fromIso, order);
      && r.total == |repos|
      && |r.updated| + |r.skipped| + |r.failed| <= r.total
      && (|r.updated| + |r.skipped| + |r.failed| == r.total <==> forall i :: 0 <= i < |repos| ==> repos[i].name in disk)
  {
    var r := SyncReport(repos, disk, force, fromIso, order);
    ReportPartition(repos, disk, force, fromIso, order);
    CollectKeepsAll(r.updated, UpdatedName);
    CollectKeepsAll(r.failed, FailedName);
    assert |multiset(PresentNames(repos, disk))| == |r.skipped| + |r.updated| + |r.failed|;
  }

  /** A repository whose directory does not exist is in no bucket. */
  lemma AbsentRepoInNoBucket(repos: seq<Repo>, disk: map<string, LocalRepo>, force: bool,
                             fromIso: string -> Option<int>, order: seq<nat>, name: string)
    requires IsOrder(order, |Candidates(repos, disk, force, fromIso)|)
    requires name !in disk
    ensures var r := SyncReport(repos, disk, force, fromIso, order);
      && name !in r.skipped
      && (forall e :: e in r.updated ==> e.repo != name)
      && (forall e :: e in r.failed ==> e.repo != name)
  {
    var r := SyncReport(repos, disk, force, fromIso, order);
    ReportPartition(repos, disk, force, fromIso, order);
    assert multiset(PresentNames(repos, disk))[name] == 0;
    CollectMembers(r.updated, UpdatedName);
    CollectMembers(r.failed, FailedName);
    forall e | e in r.updated ensures e.repo != name {
      assert e.repo in Collect(r.updated, UpdatedName);
    }
    forall e | e in r.failed ensures e.repo != name {
      assert e.repo in Collect(r.failed, FailedName);
    }
  }

  /** `skipped` holds only repositories whose directory exists and that are not stale. */
  lemma {:induction false} SkippedContents(repos: seq<Repo>, disk: map<string, LocalRepo>, force: bool,
                                           fromIso: string -> Option<int>)
    ensures forall n :: n in SkippedNames(repos, disk, force, fromIso) ==>
      n in disk && !Stale(disk, n, force, fromIso) && exists r :: r in repos && r.name == n
  {
    if repos != [] {
      var init := repos[..|repos| - 1];
      SkippedContents(init, disk, force, fromIso);
      assert forall r :: r in init ==> r in repos;
    }
  }

  /** `need_update` holds only repositories whose directory exists and that are
      stale, each with its own directory. */
  lemma {:induction false} CandidatesFromDisk(repos: seq<Repo>, disk: map<string, LocalRepo>, force: bool,
                                              fromIso: string -> Option<int>)
    ensures forall p :: p in Candidates(repos, disk, force, fromIso) ==>
      p.name in disk && p.local == disk[p.name] && Stale(disk, p.name, force, fromIso)
  {
    if repos != [] {
      CandidatesFromDisk(repos[..|repos| - 1], disk, force, fromIso);
    }
  }

  /** The stale repositories, in the order their workers complete. */
  lemma Dispatched(repos: seq<Repo>, disk: map<string, LocalRepo>, force: bool,
                   fromIso: string -> Option<int>, order: seq<nat>) returns (done: seq<Pending>)
    requires IsOrder(order, |Candidates(repos, disk, force, fromIso)|)
    ensures SyncReport(repos, disk, force, fromIso, order).updated == Collect(done, AsUpdated)
    ensures SyncReport(repos, disk, force, fromIso, order).failed == Collect(done, AsFailed)
    ensures forall p :: p in done ==> p.name in disk && p.local == disk[p.name] && Stale(disk, p.name, force, fromIso)
  {
    var need := Candidates(repos, disk, force, fromIso);
    OrderBelow(order, |need|);
    done := Pick(need, order);
    CandidatesFromDisk(repos, disk, force, fromIso);
    assert forall p :: p in done ==> p in need;
  }

  /** `e` is what `process_repo_docs` reports for the repository in `local`, whose worker did not raise. */
  predicate IsWorkerResult(e: UpdatedEntry, local: LocalRepo) {
    && local.workerFault.None?
    && e.changes == ProcessRepoDocs(e.repo, local.checkout.files.Keys).changes
    && e.docs == ProcessRepoDocs(e.repo, local.checkout.files.Keys).docsUpdated
  }

  /** `updated` holds, for each stale repository whose worker did not raise, the
      changes and documents `process_repo_docs` reports for it. */
  lemma UpdatedContents(repos: seq<Repo>, disk: map<string, LocalRepo>, force: bool,
                        fromIso: string -> Option<int>, order: seq<nat>)
    requires IsOrder(order, |Candidates(repos, disk, force, fromIso)|)
    ensures forall e :: e in SyncReport(repos, disk, force, fromIso, order).updated ==>
      e.repo in disk && Stale(disk, e.repo, force, fromIso) && IsWorkerResult(e, disk[e.repo])
  {
    var done := Dispatched(repos, disk, force, fromIso, order);
    CollectMembers(done, AsUpdated);
    forall e | e in Collect(done, AsUpdated)
      ensures e.repo in disk && Stale(disk, e.repo, force, fromIso) && IsWorkerResult(e, disk[e.repo])
    {
      var p :| p in done && AsUpdated(p) == Some(e);
      assert IsWorkerResult(e, p.local);
    }
  }

  /** `failed` holds the stale repositories whose worker raised, each with the
      exception's message. */
  lemma FailedContents(repos: seq<Repo>, disk: map<string, LocalRepo>, force: bool,
                       fromIso: string -> Option<int>, order: seq<nat>)
    requires IsOrder(order, |Candidates(repos, disk, force, fromIso)|)
    ensures forall e :: e in SyncReport(repos, disk, force, fromIso, order).failed ==>
      e.repo in disk && Stale(disk, e.repo, force, fromIso) && disk[e.repo].workerFault == Some(e.error)
  {
    var done := Dispatched(repos, disk, force, fromIso, order);
    CollectMembers(done, AsFailed);
    forall e | e in Collect(done, AsFailed)
      ensures e.repo in disk && Stale(disk, e.repo, force, fromIso) && disk[e.repo].workerFault == Some(e.error)
    {
      var p :| p in done && AsFailed(p) == Some(e);
    }
  }

  /** The completion order changes only the order of `updated` and `failed`:
      any two orders give the same total, the same `skipped` and the same
      entries in the other two buckets. */
  lemma OrderIrrelevant(repos: seq<Repo>, disk: map<string, LocalRepo>, force: bool,
                        fromIso: string -> Option<int>, o1: seq<nat>, o2: seq<nat>)
    requires IsOrder(o1, |Candidates(repos, disk, force, fromIso)|)
    requires IsOrder(o2, |Candidates(repos, disk, force, fromIso)|)
    ensures var r1, r2 := SyncReport(repos, disk, force, fromIso, o1), SyncReport(repos, disk, force, fromIso, o2);
      && r1.total == r2.total && r1.skipped == r2.skipped
      && multiset(r1.updated) == multiset(r2.updated)
      && multiset(r1.failed) == multiset(r2.failed)
  {
    var need := Candidates(repos, disk, force, fromIso);
    PickOrder(need, o1);
    PickOrder(need, o2);
    CollectPerm(Pick(need, o1), Pick(need, o2), AsUpdated);
    CollectPerm(Pick(need, o1), Pick(need, o2), AsFailed);
  }

  /** When no repository is stale nothing is dispatched: `updated` and `failed`
      stay empty, and every repository with a directory is skipped, in input order. */
  lemma NothingStaleNothingDispatched(repos: seq<Repo>, disk: map<string, LocalRepo>, force: bool,
                                      fromIso: string -> Option<int>, order: seq<nat>)
    requires IsOrder(order, |Candidates(repos, disk, force, fromIso)|)
    requires forall i :: 0 <= i < |repos| && repos[i].name in disk ==> !Stale(disk, repos[i].name, force, fromIso)
    ensures var r := SyncReport(repos, disk, force, fromIso, order);
      r.updated == [] && r.failed == [] && r.skipped == PresentNames(repos, disk)
  {
    NoCandidates(repos, disk, force, fromIso);
    OrderBelow(order, 0);
    AllSkipped(repos, disk, force, fromIso);
  }

  lemma {:induction false} AllSkipped(repos: seq<Repo>, disk: map<string, LocalRepo>, force: bool, fromIso: string -> Option<int>)
    requires forall i :: 0 <= i < |repos| && repos[i].name in disk ==> !Stale(disk, repos[i].name, force, fromIso)
    ensures SkippedNames(repos, disk, force, fromIso) == PresentNames(repos, disk)
  {
    if repos != [] {
      var init := repos[..|repos| - 1];
      assert forall i :: 0 <= i < |init| ==> init[i] == repos[i];
      AllSkipped(init, disk, force, fromIso);
    }
  }

  lemma {:induction false} NoCandidates(repos: seq<Repo>, disk: map<string, LocalRepo>, force: bool, fromIso: string -> Option<int>)
    requires forall i :: 0 <= i < |repos| && repos[i].name in disk ==> !Stale(disk, repos[i].name, force, fromIso)
    ensures Candidates(repos, disk, force, fromIso) == []
  {
    if repos != [] {
      var init := repos[..|repos| - 1];
      assert forall i :: 0 <= i < |init| ==> init[i] == repos[i];
      NoCandidates(init, disk, force, fromIso);
    }
  }

  /** `skipped` keeps the input order: the skipped repositories of a list made
      of two parts are those of the first part followed by those of the second. */
  lemma {:induction false} SkippedInInputOrder(a: seq<Repo>, b: seq<Repo>, disk: map<string, LocalRepo>,
                                               force: bool, fromIso: string -> Option<int>)
    ensures SkippedNames(a + b, disk, force, fromIso)
            == SkippedNames(a, disk, force, fromIso) + SkippedNames(b, disk, force, fromIso)
    decreases |b|
  {
    if b == [] {
      assert a + b == a;
    } else {
      var b' := b[..|b| - 1];
      assert (a + b)[..|a + b| - 1] == a + b';
      assert (a + b)[|a + b| - 1] == b[|b| - 1];
      SkippedInInputOrder(a, b', disk, force, fromIso);
    }
  }

  /** Every stale repository whose directory exists is in `need_update`. */
  lemma {:induction false} StaleIsCandidate(repos: seq<Repo>, disk: map<string, LocalRepo>, force: bool,
                                            fromIso: string -> Option<int>, r: Repo)
    ensures r in repos && r.name in disk && Stale(disk, r.name, force, fromIso) ==>
      Pending(r.name, disk[r.name]) in Candidates(repos, disk, force, fromIso)
  {
    if !(r in repos && r.name in disk && Stale(disk, r.name, force, fromIso)) {
      return;
    }
    var init := repos[..|repos| - 1];
    var p := Pending(r.name, disk[r.name]);
    var c := Candidates(init, disk, force, fromIso);
    var last := repos[|repos| - 1].name;
    if r != repos[|repos| - 1] {
      InInit(repos, r);
      assert p in c by {
        StaleIsCandidate(init, disk, force, fromIso, r);
      }
      if last in disk && Stale(disk, last, force, fromIso) {
        assert Candidates(repos, disk, force, fromIso) == c + [Pending(last, disk[last])];
      } else {
        assert Candidates(repos, disk, force, fromIso) == c;
      }
    } else {
      assert Candidates(repos, disk, force, fromIso) == c + [p];
    }
  }

  /** Every repository whose directory exists and that is not stale is in `skipped`. */
  lemma {:induction false} FreshIsSkipped(repos: seq<Repo>, disk: map<string, LocalRepo>, force: bool,
                                          fromIso: string -> Option<int>, r: Repo)
    ensures r in repos && r.name in disk && !Stale(disk, r.name, force, fromIso) ==>
      r.name in SkippedNames(repos, disk, force, fromIso)
  {
    if !(r in repos && r.name in disk && !Stale(disk, r.name, force, fromIso)) {
      return;
    }
    var init := repos[..|repos| - 1];
    if r != repos[|repos| - 1] {
      InInit(repos, r);
      FreshIsSkipped(init, disk, force, fromIso, r);
    }
  }

  /** Each repository whose directory exists lands in its bucket, whatever the
      completion order: in `skipped` when it is not stale, otherwise in
      `updated` with the result of `process_repo_docs` when its worker
      returns, or in `failed` with the exception's message when it raises. */
  lemma RepoInItsBucket(repos: seq<Repo>, disk: map<string, LocalRepo>, force: bool,
                        fromIso: string -> Option<int>, order: seq<nat>, r: Repo)
    requires IsOrder(order, |Candidates(repos, disk, force, fromIso)|)
    ensures r in repos && r.name in disk ==>
      var report := SyncReport(repos, disk, force, fromIso, order);
      var local := disk[r.name];
      var result := ProcessRepoDocs(r.name, local.checkout.files.Keys);
      && (!Stale(disk, r.name, force, fromIso) ==> r.name in report.skipped)
      && (Stale(disk, r.name, force, fromIso) && local.workerFault.None? ==>
            UpdatedEntry(r.name, result.changes, result.docsUpdated) in report.updated)
      && (Stale(disk, r.name, force, fromIso) && local.workerFault.Some? ==>
            FailedEntry(r.name, local.workerFault.value) in report.failed)
  {
    if r !in repos || r.name !in disk {
    } else if !Stale(disk, r.name, force, fromIso) {
      FreshIsSkipped(repos, disk, force, fromIso, r);
    } else {
      var need := Candidates(repos, disk, force, fromIso);
      var p := Pending(r.name, disk[r.name]);
      StaleIsCandidate(repos, disk, force, fromIso, r);
      PickOrder(need, order);
      var done := Pick(need, order);
      assert p in done by {
        assert p in multiset(need);
      }
      CollectMembers(done, AsUpdated);
      CollectMembers(done, AsFailed);
    }
  }
}
