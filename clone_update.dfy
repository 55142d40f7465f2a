/** `clone_or_update_repo`, `clone_or_update_all` and the error count of `main`:
    the status string of each repository and how statuses are counted as errors. */
module CloneUpdate {
  import opened Common
  import opened Text

  /** What the outside world answers for one repository: whether its directory
      already exists, what `run_command(["git", "fetch", "origin"])` returned
      (its standard output) or raised, and the return code of
      `git clone --depth 1`, or the exception starting it raised. */
  datatype Probe = Probe(pathExists: bool, fetch: Outcome<string>, clone: Outcome<int>)

  /** The message of the `AttributeError` raised by reading `returncode` on the
      string `run_command` returns. */
  const AttributeErrorText: string := "'str' object has no attribute 'returncode'"

  /** The `f"error: {e}"` form of a status. */
  predicate IsErrorDetail(s: string) {
    |s| >= 7 && s[..7] == "error: "
  }

  /** `clone_or_update_repo`. For an existing directory, the fetch's output is a
      string, so reading its `returncode` raises and the handler turns that into
      an `error: ...` status; the update branch can never succeed. A new
      directory is cloned: return code 0 gives `cloned`, any other `error`, and
      an exception `error: ` followed by its message. */
  function CloneOrUpdateRepo(probe: Probe): (status: string)
    ensures status == "cloned" || status == "error" || IsErrorDetail(status)
    ensures probe.pathExists ==> IsErrorDetail(status)
    ensures probe.pathExists && probe.fetch.Ok? ==> status == "error: " + AttributeErrorText
    ensures status == "cloned" <==> !probe.pathExists && probe.clone == Ok(0)
  {
    if probe.pathExists then
      match probe.fetch
      case Raised(msg) => "error: " + msg
      case Ok(_) => "error: " + AttributeErrorText
    else
      match probe.clone
      case Raised(msg) => "error: " + msg
      case Ok(code) => if code == 0 then "cloned" else "error"
  }

  /** "cloned" does not contain "error". */
  lemma ClonedHasNoError()
    ensures !Contains("cloned", "error")
  {
    var s: string := "cloned";
    forall i | 0 <= i <= |s| ensures !("error" <= s[i..]) {
      if i <= 1 {
        assert s[i..][0] != 'e';
      } else {
        assert |s[i..]| < |"error"|;
      }
    }
  }

  /** A status counts as an error in `main` (it contains the substring
      "error") exactly when the repository was not freshly cloned. */
  lemma ErrorIffNotCloned(probe: Probe)
    ensures Contains(CloneOrUpdateRepo(probe), "error") <==> CloneOrUpdateRepo(probe) != "cloned"
  {
    var status := CloneOrUpdateRepo(probe);
    if status == "cloned" {
      ClonedHasNoError();
    } else if status == "error" {
      ContainsPrefix(status, "error");
    } else {
      assert "error" <= status[..7];
      ContainsPrefix(status, "error");
    }
  }

  /** The names of `repos`. */
  function Names(repos: seq<Repo>): (names: set<string>)
    ensures forall r :: r in repos ==> r.name in names
    ensures forall n :: n in names ==> exists r :: r in repos && r.name == n
  {
    set r | r in repos :: r.name
  }

  /** `clone_or_update_all`: the status of every repository, keyed by its name.
      The directory of a repository is determined by its name, so `env` gives
      the outside world's answers per name, and the order in which the workers
      complete does not change the dictionary. */
  method CloneOrUpdateAll(repos: seq<Repo>, env: string -> Probe) returns (results: map<string, string>)
    ensures results.Keys == Names(repos)
    ensures forall n :: n in results ==> results[n] == CloneOrUpdateRepo(env(n))
  {
    results := map[];
    for i := 0 to |repos|
      invariant results.Keys == Names(repos[..i])
      invariant forall n :: n in results ==> results[n] == CloneOrUpdateRepo(env(n))
    {
      var name := repos[i].name;
      var status := CloneOrUpdateRepo(env(name));
      results := results[name := status];
      assert repos[..i + 1] == repos[..i] + [repos[i]];
    }
    assert repos[..|repos|] == repos;
  }

  /** The names whose status contains "error". */
  function ErrorNames(results: map<string, string>): (names: set<string>)
    ensures names <= results.Keys
    ensures forall n :: n in results ==> (n in names <==> Contains(results[n], "error"))
  {
    set n | n in results && Contains(results[n], "error")
  }

  /** The error count of `main`: how many statuses contain "error"; it is zero
      exactly when no status does. */
  method CountErrors(results: map<string, string>) returns (errors: nat)
    ensures errors == |ErrorNames(results)|
    ensures errors == 0 <==> forall n :: n in results ==> !Contains(results[n], "error")
  {
    ghost var failing := ErrorNames(results);
    errors := 0;
    var rest := results.Keys;
    ghost var seen: set<string> := {};
    while rest != {}
      invariant rest !! seen && rest + seen == results.Keys
      invariant errors == |failing * seen|
      decreases |rest|
    {
      var n :| n in rest;
      CountStep(failing, seen, n);
      if Contains(results[n], "error") {
        errors := errors + 1;
      }
      MoveOne(rest, seen, n);
      rest := rest - {n};
      seen := seen + {n};
    }
    assert failing * seen == failing;
    if errors == 0 {
      forall n | n in results ensures !Contains(results[n], "error") {
        assert n !in failing;
      }
    } else {
      ghost var n :| n in failing;
    }
  }

  /** Moving one element from `rest` to `seen` keeps them disjoint and keeps their union. */
  lemma MoveOne<T>(rest: set<T>, seen: set<T>, n: T)
    requires n in rest && rest !! seen
    ensures (rest - {n}) !! (seen + {n}) && (rest - {n}) + (seen + {n}) == rest + seen
  {
  }

  /** Counting one more name adds one exactly when that name is in `counted`. */
  lemma CountStep<T>(counted: set<T>, seen: set<T>, n: T)
    requires n !in seen
    ensures |counted * (seen + {n})| == |counted * seen| + (if n in counted then 1 else 0)
  {
    if n in counted {
      assert counted * (seen + {n}) == counted * seen + {n};
    } else {
      assert counted * (seen + {n}) == counted * seen;
    }
  }
}
