/** The per-repository staleness decision: `get_last_commit_date`,
    `get_last_doc_update` and `needs_update`. */
module Staleness {
  import opened Common
  import opened Text

  /** The documentation files whose modification times count, in the order they are examined. */
  const DocFiles: seq<string> :=
    ["catalog-info.yaml", "README.md", "INTEGRATIONS.md", "ARCHITECTURE.md", "API.md"]

  /** A local checkout as the staleness check sees it: the modification time of
      each file at its top level (a name is a key exactly when that file exists),
      and what running `git log -1 --format=%ci` in it printed, or the exception
      running it raised. */
  datatype Checkout = Checkout(files: map<string, int>, gitLog: Outcome<string>)

  /** `get_last_commit_date`: the stripped log output, cut to its first 19
      characters, parsed by `fromIso` (`datetime.fromisoformat`, where `None`
      stands for the ValueError it raises). Any exception gives `None`. */
  function LastCommitDate(gitLog: Outcome<string>, fromIso: string -> Option<int>): (r: Option<int>)
    ensures r.Some? ==> gitLog.Ok? && !Blank(gitLog.value)
    ensures r.Some? ==> exists t :: t == Strip(gitLog.value) && r == fromIso(if |t| <= 19 then t else t[..19])
    ensures r.None? <==> gitLog.Raised? || Blank(gitLog.value)
                         || (var t := Strip(gitLog.value); fromIso(if |t| <= 19 then t else t[..19]).None?)
  {
    match gitLog
    case Raised(_) => None
    case Ok(out) =>
      var t := Strip(out);
      if t != [] then fromIso(if |t| <= 19 then t else t[..19]) else None
  }

  /** One pass of the loop in `get_last_doc_update`: the running latest time after looking at `name`. */
  function Bump(latest: Option<int>, files: map<string, int>, name: string): Option<int> {
    if name in files && (latest.None? || files[name] > latest.value) then Some(files[name]) else latest
  }

  /** The running latest time after the loop has looked at every name of `names`. */
  function LatestOf(files: map<string, int>, names: seq<string>): Option<int> {
    if names == [] then None
    else Bump(LatestOf(files, names[..|names| - 1]), files, names[|names| - 1])
  }

  /** None of `names` is a file of the checkout. */
  predicate NonePresent(files: map<string, int>, names: seq<string>) {
    forall i :: 0 <= i < |names| ==> names[i] !in files
  }

  /** `t` is the modification time of one of `names` that exists, and no existing one is later. */
  predicate IsLatest(files: map<string, int>, names: seq<string>, t: int) {
    && (exists i :: 0 <= i < |names| && names[i] in files && files[names[i]] == t)
    && (forall i :: 0 <= i < |names| && names[i] in files ==> files[names[i]] <= t)
  }

  /** Every one of `names` that exists was last modified strictly before `t`. */
  predicate OlderThan(files: map<string, int>, names: seq<string>, t: int) {
    forall i :: 0 <= i < |names| && names[i] in files ==> files[names[i]] < t
  }

  /** The running maximum is `None` exactly when no file exists, and otherwise the latest time. */
  lemma {:induction false} LatestOfSpec(files: map<string, int>, names: seq<string>)
    ensures LatestOf(files, names).None? <==> NonePresent(files, names)
    ensures LatestOf(files, names).Some? ==> IsLatest(files, names, LatestOf(files, names).value)
  {
    if names != [] {
      var n := |names| - 1;
      var init := names[..n];
      LatestOfSpec(files, init);
      var prev := LatestOf(files, init);
      assert forall i :: 0 <= i < n ==> names[i] == init[i];
      if prev.Some? {
        var i :| 0 <= i < n && init[i] in files && files[init[i]] == prev.value;
        assert names[i] in files && files[names[i]] == prev.value;
      }
    }
  }

  /** `get_last_doc_update`: the latest modification time of the documentation
      files that exist, or `None` when there is none. */
  method GetLastDocUpdate(files: map<string, int>) returns (latest: Option<int>)
    ensures latest == LatestOf(files, DocFiles)
    ensures latest.None? <==> NonePresent(files, DocFiles)
    ensures latest.Some? ==> IsLatest(files, DocFiles, latest.value)
  {
    latest := None;
    for i := 0 to |DocFiles|
      invariant latest == LatestOf(files, DocFiles[..i])
    {
      var docFile := DocFiles[i];
      if docFile in files {
        var mtime := files[docFile];
        if latest.None? || mtime > latest.value {
          latest := Some(mtime);
        }
      }
      assert DocFiles[..i + 1][..i] == DocFiles[..i];
    }
    assert DocFiles[..|DocFiles|] == DocFiles;
    LatestOfSpec(files, DocFiles);
  }

  /** `needs_update`: `force` wins; otherwise a checkout without a readable
      last commit is not stale, one without documentation files is, and
      otherwise it is stale when the commit is strictly later than the latest
      documentation change. */
  function NeedsUpdate(c: Checkout, force: bool, fromIso: string -> Option<int>): bool {
    if force then true
    else
      var lastCommit := LastCommitDate(c.gitLog, fromIso);
      var lastDocUpdate := LatestOf(c.files, DocFiles);
      if lastCommit.None? then false
      else if lastDocUpdate.None? then true
      else lastCommit.value > lastDocUpdate.value
  }

  /** What `needs_update` decides: `force` wins; otherwise a checkout without a
      readable last commit is not stale, and one with a commit is stale exactly
      when every documentation file that exists is strictly older than that
      commit (so when none exists at all). */
  lemma NeedsUpdateSpec(c: Checkout, force: bool, fromIso: string -> Option<int>)
    ensures force ==> NeedsUpdate(c, force, fromIso)
    ensures !force && LastCommitDate(c.gitLog, fromIso).None? ==> !NeedsUpdate(c, force, fromIso)
    ensures !force && LastCommitDate(c.gitLog, fromIso).Some? && NonePresent(c.files, DocFiles) ==> NeedsUpdate(c, force, fromIso)
    ensures NeedsUpdate(c, force, fromIso) <==>
              force || (LastCommitDate(c.gitLog, fromIso).Some? &&
                        OlderThan(c.files, DocFiles, LastCommitDate(c.gitLog, fromIso).value))
  {
    LatestOfSpec(c.files, DocFiles);
  }

  /** A documentation file as new as the last commit keeps the checkout fresh:
      the comparison is strict. */
  lemma EqualTimestampsNotStale(c: Checkout, fromIso: string -> Option<int>, i: nat)
    requires i < |DocFiles| && DocFiles[i] in c.files
    requires LastCommitDate(c.gitLog, fromIso) == Some(c.files[DocFiles[i]])
    ensures !NeedsUpdate(c, false, fromIso)
  {
    NeedsUpdateSpec(c, false, fromIso);
  }
}
