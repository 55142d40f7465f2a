/** `process_repo_docs`: the placeholder documentation worker. It only looks at
    which of three documentation files exist and reports what it would create. */
module DocWorker {

  const Catalog := "catalog-info.yaml"
  const CatalogChange := "No catalog-info.yaml - needs generation"

  /** The files the worker checks, in the order it checks them. */
  const WorkerDocs: seq<string> := [Catalog, "README.md", "INTEGRATIONS.md"]

  /** What the worker reports for one repository. */
  datatype WorkResult = WorkResult(name: string, changes: seq<string>, docsUpdated: seq<string>)

  /** The entry that announces a file the worker would create. */
  function NewEntry(doc: string): string {
    doc + " (new)"
  }

  /** One entry per name of `names` that is not `present`, in the order of `names`. */
  function MarkMissing(names: seq<string>, present: set<string>): (r: seq<string>)
    ensures |r| <= |names|
    ensures forall d :: d in r <==> exists n :: n in names && n !in present && d == NewEntry(n)
  {
    if names == [] then []
    else
      var rest := MarkMissing(names[1..], present);
      assert forall n :: n in names <==> n == names[0] || n in names[1..];
      (if names[0] !in present then [NewEntry(names[0])] else []) + rest
  }

  /** Marking the missing names of a concatenation marks each part in turn, so
      entries keep the order of the names they come from. */
  lemma {:induction false} MarkMissingConcat(a: seq<string>, b: seq<string>, present: set<string>)
    ensures MarkMissing(a + b, present) == MarkMissing(a, present) + MarkMissing(b, present)
  {
    if a == [] {
      assert a + b == b;
    } else {
      assert (a + b)[0] == a[0] && (a + b)[1..] == a[1..] + b;
      MarkMissingConcat(a[1..], b, present);
    }
  }

  /** `process_repo_docs` for a repository whose top-level files are `present`:
      one change when the catalog file is missing and none otherwise, and one
      " (new)" entry for each missing file among catalog-info.yaml, README.md and
      INTEGRATIONS.md, in that order. */
  function ProcessRepoDocs(name: string, present: set<string>): (r: WorkResult)
    ensures r.name == name
    ensures Catalog in present ==> r.changes == []
    ensures Catalog !in present ==> r.changes == [CatalogChange]
    ensures r.docsUpdated == MarkMissing(WorkerDocs, present)
  {
    var changes := if Catalog !in present then [CatalogChange] else [];
    var docsUpdated := (if Catalog !in present then [NewEntry(Catalog)] else [])
                       + MarkMissing(["README.md", "INTEGRATIONS.md"], present);
    assert WorkerDocs[1..] == ["README.md", "INTEGRATIONS.md"];
    WorkResult(name, changes, docsUpdated)
  }

  /** Two entries are equal only when they announce the same file. */
  lemma NewEntryInjective(a: string, b: string)
    requires NewEntry(a) == NewEntry(b)
    ensures a == b
  {
    assert a == NewEntry(a)[..|a|];
  }

  /** The worker never announces ARCHITECTURE.md or API.md, and every entry
      it makes names a file that is missing. */
  lemma {:induction false} WorkerIgnoresOtherDocs(name: string, present: set<string>)
    ensures forall d :: d in ProcessRepoDocs(name, present).docsUpdated ==>
      d != NewEntry("ARCHITECTURE.md") && d != NewEntry("API.md")
    ensures forall n :: n in WorkerDocs && n in present ==>
      NewEntry(n) !in ProcessRepoDocs(name, present).docsUpdated
  {
    var docs := ProcessRepoDocs(name, present).docsUpdated;
    forall d | d in docs
      ensures d != NewEntry("ARCHITECTURE.md") && d != NewEntry("API.md")
    {
      var n :| n in WorkerDocs && n !in present && d == NewEntry(n);
      if d == NewEntry("ARCHITECTURE.md") {
        NewEntryInjective(n, "ARCHITECTURE.md");
        assert false;
      }
      if d == NewEntry("API.md") {
        NewEntryInjective(n, "API.md");
        assert false;
      }
    }
    forall n | n in WorkerDocs && n in present
      ensures NewEntry(n) !in docs
    {
      if NewEntry(n) in docs {
        var m :| m in WorkerDocs && m !in present && NewEntry(n) == NewEntry(m);
        NewEntryInjective(n, m);
        assert false;
      }
    }
  }
}
