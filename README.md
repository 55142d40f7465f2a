# sync-all: documentation sync orchestration, modelled in Dafny

`commands/sync-docs/scripts/sync-all.py` clones or updates every repository of
an organisation, works out which local checkouts have documentation older than
their last commit, dispatches a (placeholder) documentation worker for each
stale one, and prints a report. This project models the decision and
bookkeeping rules of that script, with the shell and thread-pool plumbing
replaced by plain inputs:

- timestamps are integers;
- a checkout's top-level files are a map from file name to modification time
  (a name is a key exactly when the file exists);
- the output of `git log -1 --format=%ci` is a string or the message of the
  exception running it raised; `datetime.fromisoformat` is a parameter
  `fromIso` that returns `None` where it would raise;
- the exception a documentation worker raises, if any, is part of the
  repository's directory;
- the order in which pool workers complete (`as_completed`) is a parameter
  `order`, any arrangement of the submitted tasks, and every property about the
  report holds for all such orders.

Modules:

- `Common`: `Option`, `Outcome` (a value or a raised exception's message), `Repo`.
- `Text`: `str.strip` with Python's `str.isspace` set, and the `in` operator on strings.
- `Seqs`: visiting a sequence in a completion order (`Pick`), list
  comprehensions with a filter (`Collect`), and the fact that reordering the
  input only reorders what they produce.
- `Staleness`: `get_last_commit_date`, `get_last_doc_update` (a loop), `needs_update`.
- `DocWorker`: `process_repo_docs`.
- `SyncDocs`: `sync_docs`, with both of its loops, and the properties of its report.
- `CloneUpdate`: `clone_or_update_repo`, `clone_or_update_all` and the error count in `main`.
- `SyncAll`: `main`'s control flow and exit code.
- `Render`: the skipped-repositories section of `print_report`.

Where the code and its documented intent differ, the model follows the code:

- Updating an existing checkout never succeeds. `run_command` returns the
  command's standard output as a `str`. Reading `result.returncode` on it (line 66)
  raises `AttributeError`, which the handler at lines 87-88 turns into the status
  `error: 'str' object has no attribute 'returncode'`. So `main` exits with 1
  whenever any checkout already exists.
- `failed` only ever holds worker exceptions, never clone failures. In the
  source, a repository whose clone failed normally has no directory, so
  `sync_docs` drops it and it appears in no bucket. The model does not link the
  clone statuses to the directories (see "Left out"). It proves the part that
  belongs to `sync_docs`: a repository without a directory is in no bucket
  (`SyncDocs.AbsentRepoInNoBucket`).
- `skipped` is a list in input order, not a set: a repository listed twice is
  skipped twice.
- The error count runs over the status dictionary keyed by name, so
  repositories with the same name count once.

## Model

| member | source | states |
|---|---|---|
| Text.Strip | commands/sync-docs/scripts/sync-all.py:120-121 | `output.strip()` is the piece of the output between a blank leading and a blank trailing margin; it is empty exactly when the output is all whitespace, and otherwise neither starts nor ends with whitespace |
| Staleness.LastCommitDate | commands/sync-docs/scripts/sync-all.py:113-124 | there is no commit date exactly when `git log` raised, printed only whitespace, or printed something `fromisoformat` rejects once stripped and cut to 19 characters; otherwise the date is `fromisoformat` of that cut |
| Staleness.LatestOfSpec | commands/sync-docs/scripts/sync-all.py:137-145 | the running maximum over the five documentation files is `None` exactly when none of them exists, and otherwise equals the modification time of an existing one and is at least that of every existing one |
| Staleness.GetLastDocUpdate | commands/sync-docs/scripts/sync-all.py:127-145 | the loop computes that running maximum: `None` exactly when no documentation file exists, else the latest modification time of an existing one |
| Staleness.NeedsUpdateSpec | commands/sync-docs/scripts/sync-all.py:148-161 | `needs_update` is the function `Staleness.NeedsUpdate`, and this lemma states it: `force` gives true whatever the timestamps; without a commit date the result is false; with a commit date and no documentation file it is true; in general it is true exactly when every existing documentation file is strictly older than the commit |
| Staleness.EqualTimestampsNotStale | commands/sync-docs/scripts/sync-all.py:161 | a documentation file exactly as new as the last commit keeps the repository fresh: the comparison is strict |
| DocWorker.MarkMissing | commands/sync-docs/scripts/sync-all.py:182-185 | the entries are exactly `<name> (new)` for the names that are missing, never more than the names checked |
| DocWorker.MarkMissingConcat | commands/sync-docs/scripts/sync-all.py:175-185 | entries for a list of names come in the order of those names, part after part |
| DocWorker.ProcessRepoDocs | commands/sync-docs/scripts/sync-all.py:164-187 | the result carries the repository's name; `changes` is one entry exactly when catalog-info.yaml is missing and empty otherwise; `docs_updated` lists the missing files among catalog-info.yaml, README.md, INTEGRATIONS.md, in that order, each with " (new)" |
| DocWorker.WorkerIgnoresOtherDocs | commands/sync-docs/scripts/sync-all.py:175-185 | the worker never announces ARCHITECTURE.md or API.md, and never announces a file that exists |
| Seqs.PickOrder | commands/sync-docs/scripts/sync-all.py:226 | taking completed futures in any completion order yields every submitted task exactly once |
| Seqs.CollectPerm | commands/sync-docs/scripts/sync-all.py:226-244 | filtering and mapping a reordered input yields a reordering of the output |
| SyncDocs.PresentNames | commands/sync-docs/scripts/sync-all.py:202-207 | the repositories that survive the existence check are at most all of them, and all of them exactly when every directory exists |
| SyncDocs.SyncDocs | commands/sync-docs/scripts/sync-all.py:190-246 | the returned report is the one determined by the repositories, the directories, `force` and the completion order, whatever `dry_run` is |
| SyncDocs.CollectResults | commands/sync-docs/scripts/sync-all.py:220-244 | the `as_completed` loop puts each worker result, in completion order, in `updated`, or its exception in `failed` |
| SyncDocs.RecordResult | commands/sync-docs/scripts/sync-all.py:227-244 | one completed worker adds exactly one entry, in `updated` when it returned (the dry-run and normal branches add the same entry) or in `failed` when it raised |
| SyncDocs.FirstLoopSplits | commands/sync-docs/scripts/sync-all.py:201-212 | the first loop sends every repository whose directory exists to exactly one of `skipped` and `need_update` |
| SyncDocs.OutcomesSplit | commands/sync-docs/scripts/sync-all.py:226-244 | every dispatched repository ends in exactly one of `updated` and `failed`, under its own name |
| SyncDocs.ReportPartition | commands/sync-docs/scripts/sync-all.py:193-246 | for any completion order, the names across `skipped`, `updated` and `failed` are exactly the repositories whose directory exists, each once per occurrence in the input |
| SyncDocs.ReportCounts | commands/sync-docs/scripts/sync-all.py:193-246 | `total` is the number of repositories; `len(updated) + len(skipped) + len(failed)` is at most `total`, and equal to it exactly when every repository's directory exists |
| SyncDocs.AbsentRepoInNoBucket | commands/sync-docs/scripts/sync-all.py:204-207 | a repository without a directory appears in no bucket |
| SyncDocs.SkippedContents | commands/sync-docs/scripts/sync-all.py:206-212 | `skipped` holds only listed repositories whose directory exists and that are not stale |
| SyncDocs.CandidatesFromDisk | commands/sync-docs/scripts/sync-all.py:206-210 | `need_update` holds only stale repositories whose directory exists, each paired with its own directory |
| SyncDocs.StaleIsCandidate | commands/sync-docs/scripts/sync-all.py:209-210 | every listed stale repository with a directory is in `need_update` |
| SyncDocs.FreshIsSkipped | commands/sync-docs/scripts/sync-all.py:211-212 | every listed repository with a directory that is not stale is in `skipped` |
| SyncDocs.RepoInItsBucket | commands/sync-docs/scripts/sync-all.py:202-244 | for any completion order, each repository with a directory is in `skipped` when not stale, in `updated` with `process_repo_docs`'s result when its worker returns, and in `failed` with the exception's message when it raises |
| SyncDocs.UpdatedContents | commands/sync-docs/scripts/sync-all.py:228-241 | every `updated` entry is a stale repository with a directory whose worker returned, carrying that worker's changes and documents |
| SyncDocs.FailedContents | commands/sync-docs/scripts/sync-all.py:242-244 | every `failed` entry is a stale repository with a directory whose worker raised, carrying that exception's message |
| SyncDocs.OrderIrrelevant | commands/sync-docs/scripts/sync-all.py:220-244 | two completion orders give the same total, the same `skipped` list, and the same `updated` and `failed` entries up to order |
| SyncDocs.NothingStaleNothingDispatched | commands/sync-docs/scripts/sync-all.py:214-215 | when no repository is stale, `updated` and `failed` are empty and `skipped` is exactly the repositories with a directory, in input order |
| SyncDocs.SkippedInInputOrder | commands/sync-docs/scripts/sync-all.py:202-212 | `skipped` keeps input order: the skipped repositories of two concatenated lists are those of the first followed by those of the second |
| CloneUpdate.CloneOrUpdateRepo | commands/sync-docs/scripts/sync-all.py:53-88 | every status is `cloned`, `error` or `error: ...`; an existing checkout always gets `error: ...`, which is `error: 'str' object has no attribute 'returncode'` whenever the fetch itself returned; the status is `cloned` exactly when the directory was new and `git clone` returned 0 |
| CloneUpdate.ErrorIffNotCloned | commands/sync-docs/scripts/sync-all.py:318 | Python's `"error" in status` is `Text.Contains`; a status contains "error" exactly when it is not `cloned` |
| CloneUpdate.CloneOrUpdateAll | commands/sync-docs/scripts/sync-all.py:91-110 | the result has one key per repository name, mapped to that repository's status |
| CloneUpdate.CountErrors | commands/sync-docs/scripts/sync-all.py:318 | with `in` modelled by `Text.Contains`, the count is the number of statuses containing "error", and it is zero exactly when none does |
| SyncAll.Run | commands/sync-docs/scripts/sync-all.py:285-329 | an empty repository list exits with 1 and no report; otherwise the report is `sync_docs`'s; the exit code is 0 exactly when the list is non-empty and every repository was freshly cloned with return code 0 |
| SyncAll.ExitCodeRule | commands/sync-docs/scripts/sync-all.py:318-329 | no status containing "error" is the same as every repository having been freshly cloned successfully |
| SyncAll.ExistingCheckoutFails | commands/sync-docs/scripts/sync-all.py:60-66 | a name whose checkout already exists always gets an `error: ...` status, which counts as an error |
| Render.DecimalString | commands/sync-docs/scripts/sync-all.py:275 | `str(n)` is a non-empty string of decimal digits without a leading zero |
| Render.DecimalRoundTrip | commands/sync-docs/scripts/sync-all.py:275 | reading back the printed count gives the number of skipped repositories |
| Render.SkippedSection | commands/sync-docs/scripts/sync-all.py:269-275 | the skipped section is empty exactly when nothing was skipped, starts with its heading otherwise, and is never longer than the heading plus ten lines |
| Render.PrintSkipped | commands/sync-docs/scripts/sync-all.py:269-275 | the printing loop emits exactly that section |
| Render.SkippedNamesListed | commands/sync-docs/scripts/sync-all.py:269-272 | with one to ten skipped repositories, each is printed on its own bullet line, in order, and can be read back from it |
| Render.SkippedCountShown | commands/sync-docs/scripts/sync-all.py:273-275 | with more than ten, only the heading and a count line are printed, and the count read back from that line is the number skipped |

## Left out

- `run_command`, `subprocess.run`, `git clone`/`fetch`/`log` and `gh`/`fetch-repos.sh` in `fetch_repos`: external processes. Their outputs and exceptions are inputs (`Probe`, `Checkout.gitLog`). `fetch_repos` is not modelled: `Run` takes the list it returns. Its `gh` fallback passes the builtin `list` as an argument (line 38), which `subprocess` rejects.
- `json.loads` of the repository list: `Run` takes the parsed list, and an unparsable list is the empty list. A record without `"name"` (a `KeyError`) is not modelled. No operation reads `Repo.url`: the `Probe` for a name stands for whatever cloning that repository's URL yields.
- `datetime.fromisoformat`, `datetime.fromtimestamp` and `stat`: the commit time is the parameter `fromIso`, and modification times are integers. The time-zone offset that the `[:19]` cut removes is therefore not modelled.
- `ThreadPoolExecutor` and `as_completed`: workers run one after another in an arbitrary completion order `order`. Workers that share a repository name, and so one directory, are not modelled: a later worker may find the directory an earlier one cloned, or race it.
- CloneUpdate.CloneOrUpdateAll: statuses are taken per repository name, in input order. A name listed twice shares one probe in the model. In the source, the later worker for it finds the directory the earlier one cloned, or races it, so the name usually ends with an error status.
- SyncAll.Run: the directories `sync_docs` finds are an input independent of the clone statuses. The model does not derive them from the clones it just ran. A non-positive `--parallel` makes `ThreadPoolExecutor` raise `ValueError` (lines 99 and 220), and `main` does not catch it. `Run`, `CloneOrUpdateAll` and `SyncDocs` assume a positive pool size. `Run`'s exit-code rule holds for lists whose names are distinct, and for such lists every positive pool size gives the same result. With a name listed twice, the source can exit 1 where `Run` gives 0: under `--parallel 1`, the second worker finds the first one's clone and gets the `error: ...` status of line 66.
- `print_report` beyond the skipped section: banners, summary lines, the markdown table of `updated` and the `failed` list are presentation only. Every `print`, and the `Processing ...` and warning messages, are output only.
- `argparse`, `mkdir` and `sys.exit`: command-line and filesystem plumbing. `Run` takes `force` and `dry_run` directly.
- The `updated (last: ...)` branch of `clone_or_update_repo` (lines 67-75): it is unreachable, because line 66 always raises first.
