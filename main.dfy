/** `main`: clone or update every repository, count the clone/update errors,
    sync the documentation, and compute the exit code. */
module SyncAll {
  import opened Common
  import opened Text
  import opened Seqs
  import opened CloneUpdate
  import opened SyncDocs

  /** A run of `main` on the repository list `fetch_repos` returned. `env`
      answers the clone/update probes per repository name, `disk` is the
      repositories directory as `sync_docs` then finds it, and `order` the
      order in which its workers complete. It returns the exit code and the
      report, which exists unless the list was empty. The exit code is 0
      exactly when the list is non-empty and every repository was freshly
      cloned with return code 0: an existing checkout always yields an error
      status. */
  method Run(repos: seq<Repo>, env: string -> Probe, disk: map<string, LocalRepo>, force: bool, dryRun: bool,
             fromIso: string -> Option<int>, order: seq<nat>) returns (code: int, report: Option<Report>)
    requires IsOrder(order, |Candidates(repos, disk, force, fromIso)|)
    ensures code == 0 || code == 1
    ensures repos == [] ==> code == 1 && report.None?
    ensures repos != [] ==> report == Some(SyncReport(repos, disk, force, fromIso, order))
    ensures code == 0 <==> repos != [] && forall r :: r in repos ==> !env(r.name).pathExists && env(r.name).clone == Ok(0)
  {
    if repos == [] {
      return 1, None;
    }
    var cloneResults := CloneOrUpdateAll(repos, env);
    var errors := CountErrors(cloneResults);
    var syncReport := SyncDocs.SyncDocs(repos, disk, force, dryRun, fromIso, order);
    report := Some(syncReport);
    code := if errors == 0 then 0 else 1;
    ExitCodeRule(repos, env, cloneResults);
  }

  /** No status of the clone/update results contains "error" exactly when every
      repository was freshly cloned with return code 0. */
  lemma ExitCodeRule(repos: seq<Repo>, env: string -> Probe, results: map<string, string>)
    requires results.Keys == Names(repos)
    requires forall n :: n in results ==> results[n] == CloneOrUpdateRepo(env(n))
    ensures (forall n :: n in results ==> !Contains(results[n], "error")) <==>
            (forall r :: r in repos ==> !env(r.name).pathExists && env(r.name).clone == Ok(0))
  {
    forall n | n in results
      ensures Contains(results[n], "error") <==> !(!env(n).pathExists && env(n).clone == Ok(0))
    {
      ErrorIffNotCloned(env(n));
    }
  }

  /** An existing checkout makes the run fail: its update always reports an error. */
  lemma ExistingCheckoutFails(env: string -> Probe, n: string)
    requires env(n).pathExists
    ensures IsErrorDetail(CloneOrUpdateRepo(env(n)))
    ensures Contains(CloneOrUpdateRepo(env(n)), "error")
  {
    ErrorIffNotCloned(env(n));
  }
}
