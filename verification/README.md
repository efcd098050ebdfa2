# git report generator — verified model of its parsing and reconciliation core

`git_report_gen.py` builds a Markdown activity report for a git repository over
a time range such as `2.weeks`. This project models, in Dafny, the parts of it
that compute facts from git's text output:

- **the file-change reconciler** (`get_file_change_stats`). It reads one
  `git diff-tree --name-status` output per commit, in the order `git log`
  lists the commits. It folds every `A`/`M`/`D` line into three sets of paths
  (net added, net modified, net deleted) and reports the sizes of the sets.
  Modules: `Reconciler`, `PathFate`, `EventOrder`, `DiffTree`, `CommitOrder`,
  `Scenarios`.
- **the remote URL rewriting** (`is_github_repo`, `get_github_repo_url`). It
  turns `remote.origin.url` into the repository's `https://github.com/...`
  address. Module: `RemoteUrl`.
- **the day count of a time range** (`calculate_since_date`). `N.unit` becomes
  a number of days, with a one-week fallback. Module: `SinceDays`.
- **the author/commit-count parsing** (`get_commit_counts`) of
  `git shortlog -sne` output. Module: `Shortlog`.

Two supporting modules model the Python built-ins these functions use:

- `Text`: `str.strip`, `str.split`, `split(sep, 1)`, `replace(p, "")`,
  `startswith`/`endswith`/`in`, and `lower`.
- `Numbers`: `int(s)` and `str(n)`.

`Wrappers` holds the `Option` type.

The git commands themselves are not modelled. Each operation takes the text
that `run_git_command` returns: stdout with surrounding whitespace stripped,
where the `None` of a failed command reads as the empty string.

Each result is proved against an independent formulation:

- The reconciler's three-set loop is proved equal to a per-path four-state
  transition table (`PathFate.ReconcileByPath`).
- The in-place loop (`DiffTree.GetFileChangeStats`) is proved equal to the
  functional fold.
- The line parsers have round trips with the text git prints
  (`DiffTree.FormattedLineParses`, `Shortlog.RenderThenParse`).
- The URL rewriting agrees across the three remote spellings
  (`RemoteUrl.SshAndHttpsAgree`).

Two behaviours of the code that a reader may not expect, which the model
keeps:

- **A delete followed by an add of the same path.** The add branch skips a path
  that is already in the deleted set (lines 207-212). The path stays deleted
  and counts as one deleted file (`Scenarios.DeleteThenAdd`).
- **Event order.** `git log` lists commits newest first, and the loop visits
  them in that order (lines 167-183). The comment on the delete branch
  ("added then deleted = net zero", line 217) reasons about oldest-first
  replay. The reconciler takes events in the order given, and `CommitOrder`
  shows what this does to a file created and deleted inside the range (see
  Findings).

## Model

| member | source | states |
|---|---|---|
| Reconciler.Step | git_report_gen.py:206-228 | One status line changes only its own path's membership and keeps the three sets disjoint. The deleted set never shrinks and grows only on a delete of a path that is not added. An add of a deleted path is ignored; any other add puts the path in added and out of modified. A delete cancels an add, or otherwise records the path as deleted, and always takes it out of modified. A modify marks the path exactly when it is neither added nor deleted. |
| Reconciler.Run | git_report_gen.py:183-228 | Folding the loop over any event sequence keeps the sets disjoint and never removes a deleted path. Only paths the events mention end up tracked. Paths the events never mention keep their membership. |
| Reconciler.Reconcile | git_report_gen.py:178-228 | Starting from three empty sets, the result is disjoint and tracks only paths the events mention. |
| Reconciler.RunSnoc | git_report_gen.py:195-228 | Processing one more line after a run is one more step of the loop body. |
| Reconciler.RunAppend | git_report_gen.py:183-228 | Processing two batches of events one after the other is processing their concatenation, so commits can be read one at a time. |
| Reconciler.DisjointCount | git_report_gen.py:230-234 | The three reported counts add up to the number of distinct tracked paths. |
| Reconciler.Stats | git_report_gen.py:230-234 | The three counts together never exceed the number of distinct paths mentioned, and no events give all zeros. |
| PathFate.StepFate | git_report_gen.py:206-228 | One iteration is one transition of a four-state per-path table for the line's path, and no transition for any other path. |
| PathFate.RunFate | git_report_gen.py:183-228 | A whole run ends each path in the state the table reaches on the events naming that path. |
| PathFate.ReconcileByPath | git_report_gen.py:178-234 | The added, modified and deleted sets are exactly the mentioned paths whose table ends in NetAdded, NetModified and NetDeleted respectively. |
| PathFate.ReplayFromDeleted | git_report_gen.py:206-221 | Once a path is in the deleted set, no later add, modify or delete of it moves it out. |
| PathFate.ReplayAddedThroughModifies | git_report_gen.py:206-228 | Modify lines do not move an added path out of the added set. |
| EventOrder.DeleteThenAnything | git_report_gen.py:206-221 | A delete of a path that is not currently added leaves it in the deleted set and in no other, whatever events follow, later adds included. |
| EventOrder.AddModifyDelete | git_report_gen.py:206-228 | Add, then only modifies of the path, then delete, leaves the path in none of the sets ("added then deleted = net zero"). |
| EventOrder.RepeatIsIdempotent | git_report_gen.py:206-228 | Repeating an add or modify line immediately changes nothing. |
| EventOrder.RepeatedDeleteAfterAdd | git_report_gen.py:214-221 | A repeated delete is not idempotent: add, delete counts nothing, while add, delete, delete counts the path as deleted. |
| Scenarios.AddOnly | git_report_gen.py:206-212 | One add counts one added file. |
| Scenarios.AddThenDelete | git_report_gen.py:214-221 | Add then delete of one path counts nothing. |
| Scenarios.ModifyTwice | git_report_gen.py:225-228 | Two modifies of one path count one modified file. |
| Scenarios.AddModifyThenDelete | git_report_gen.py:206-228 | Add, modify, delete of one path counts nothing. |
| Scenarios.DeleteThenAdd | git_report_gen.py:206-221 | Delete then add of one path counts one deleted file. |
| DiffTree.StatusKind | git_report_gen.py:203-227 | A status is acted on exactly when it starts with `A`, `D` or `M`, and its kind is the one of that first letter. |
| DiffTree.ParseLine | git_report_gen.py:195-204 | A line yields an event exactly when it holds a tab and starts with `A`, `D` or `M`. The event's kind is that letter's kind, and its path is exactly the second tab-separated field (later fields are dropped), so it holds no tab. |
| DiffTree.FormattedLineParses | git_report_gen.py:195-204 | A `STATUS<TAB>PATH` line reads back as the event of the status letter's kind for exactly that path. |
| DiffTree.EventsOfLines | git_report_gen.py:195-204 | The lines of one output give at most one event each. |
| DiffTree.EventsOfLinesNext | git_report_gen.py:195-204 | Reading one more line appends the event it parses to, or nothing when the loop skips it. |
| DiffTree.EventsOfLinesAppend | git_report_gen.py:195-204 | Reading two runs of lines one after the other reads the events of each in turn. |
| DiffTree.OneLineOutput | git_report_gen.py:192-204 | An output without a line break gives exactly the event its one line parses to, or none. |
| DiffTree.OutputEventsBound | git_report_gen.py:195 | An output gives at most one event more than it has line breaks. |
| DiffTree.IgnoredLineChangesNothing | git_report_gen.py:196-201 | A blank line, a line without a tab, or a line with another status can be inserted anywhere in a diff output without changing the events read. |
| DiffTree.EventsOfNext | git_report_gen.py:183-195 | Reading one more commit output appends exactly that commit's events. |
| DiffTree.FileChangeStats | git_report_gen.py:164-234 | The counts never exceed the number of distinct paths in the outputs; with no commits, all three are zero. |
| DiffTree.TrackEvent | git_report_gen.py:206-228 | The in-place updates of the three sets for one event give the same sets as the reconciler's step. |
| DiffTree.TrackOutput | git_report_gen.py:195-228 | The inner loop over one output's lines leaves the sets where running the reconciler over that output's events leaves them. |
| DiffTree.GetFileChangeStats | git_report_gen.py:178-234 | The nested loop over commit outputs and lines, updating three sets in place, returns the counts of the reconciliation of all events in log order, bounded by the number of distinct paths. |
| CommitOrder.ChronologicalStats | git_report_gen.py:174-183 | Replaying the same commits oldest first gives counts bounded by the same distinct-path count. |
| CommitOrder.ReversePaths | git_report_gen.py:174-183 | Reversing the commit order keeps the set of paths mentioned. |
| CommitOrder.FlattenMembers | git_report_gen.py:183-195 | An event is read from the commits exactly when one of the commits holds it. |
| CommitOrder.ReverseMembers | git_report_gen.py:174-183 | Reversing the commit order keeps the events read. |
| CommitOrder.CreatedThenDeletedAsWritten | git_report_gen.py:214-221 | In log order (newest first), a file deleted in the newest commit and created in the oldest ends in the deleted set and not in the added set, whatever lies between. |
| CommitOrder.CreatedThenDeletedChronological | git_report_gen.py:214-221 | Replayed oldest first, the same commits leave the file in none of the three sets whenever the commits between change it only by modifications. |
| CommitOrder.CreatedThenDeletedCounts | git_report_gen.py:164-234 | For the outputs `D<TAB>a.txt` (newest) and `A<TAB>a.txt` (oldest), the loop reports 0 added, 0 modified, 1 deleted; oldest-first replay reports 0, 0, 0. |
| RemoteUrl.IsGithubRepo | git_report_gen.py:54-62 | A remote is a GitHub repository exactly when it is non-empty and `github.com` occurs somewhere in it. |
| RemoteUrl.DropGitSuffix | git_report_gen.py:79-85 | Removes exactly one trailing `.git` when present and otherwise returns the text unchanged. |
| RemoteUrl.SshFormIsGithub | git_report_gen.py:54-62 | A remote starting with `git@github.com:` is a GitHub repository. |
| RemoteUrl.HttpsFormIsGithub | git_report_gen.py:54-62 | A remote starting with `https://github.com/` is a GitHub repository and is not in the SSH form. |
| RemoteUrl.RepoUrl | git_report_gen.py:65-88 | A URL is returned exactly for the remotes `is_github_repo` accepts. An SSH remote becomes `https://github.com/` plus the rest, minus one `.git`. Any other GitHub remote loses one trailing `.git` and is otherwise kept. |
| RemoteUrl.SshRemote | git_report_gen.py:75-80 | `git@github.com:PATH.git` maps to `https://github.com/PATH`. |
| RemoteUrl.HttpsGitRemote | git_report_gen.py:82-85 | `https://github.com/PATH.git` maps to `https://github.com/PATH`. |
| RemoteUrl.HttpsRemote | git_report_gen.py:82-86 | `https://github.com/PATH` without `.git` is returned unchanged. |
| RemoteUrl.SshAndHttpsAgree | git_report_gen.py:76-86 | The SSH form, the HTTPS form with `.git` and the HTTPS form without it give the same web address. |
| SinceDays.UnitDays | git_report_gen.py:252-261 | A unit has a day count exactly when it is one of the eight words day(s), week(s), month(s), year(s), and that count is 1, 7, 30 or 365. |
| SinceDays.PluralAgrees | git_report_gen.py:252-259 | Each unit word and its plural give the same day count. |
| SinceDays.Days | git_report_gen.py:242-245 | A range without exactly one `.` falls back to 7 days. |
| SinceDays.DaysOfRange | git_report_gen.py:242-261 | For any count text `int()` reads as N (so `2`, `02`, ` 2` and `+2` alike), `N.unit` gives N times the day count of the lower-cased unit; any other unit gives 7, not 7N. |
| SinceDays.TwoParts | git_report_gen.py:242 | A count and a unit without dots, joined by one `.`, split back into exactly those two parts. |
| SinceDays.DaysOfNonInteger | git_report_gen.py:247-268 | A range whose first part is not an integer falls back to 7 days. |
| SinceDays.DaysOfOverlongCount | git_report_gen.py:247-268 | A count of more than 4300 digits makes `int()` raise `ValueError`, so the range falls back to 7 days, whatever the unit. |
| SinceDays.InfoSeparatorCount | git_report_gen.py:247-268 | A count led by U+001C (`\x1c2.weeks`) is refused by `int()` and falls back to 7 days, not 14. |
| SinceDays.CapitalisedUnit | git_report_gen.py:248-253 | Unit words are matched after lower-casing: `N.Weeks` is 7N days, for any N of at most 4300 digits. |
| SinceDays.ZeroPaddedCount | git_report_gen.py:248-253 | A zero-padded count is read as its value: `02.weeks` is 14 days. |
| Shortlog.ParseEntry | git_report_gen.py:101-105 | The count is the integer read from the first field. When the stripped line has a tab, the author is the stripped text after its first tab, non-empty and without surrounding blanks; a line without a tab is credited to `Unknown`. |
| Shortlog.ParseOneLine | git_report_gen.py:100-105 | A single line reads as nothing when blank and as its one pair otherwise. |
| Shortlog.ParseLinesAppend | git_report_gen.py:99-107 | Reading two runs of lines one after the other reads each run in turn, so the pairs are those of the lines, line by line, in order. |
| Shortlog.ParseLines | git_report_gen.py:99-107 | One pair per non-blank line; blank lines are skipped. |
| Shortlog.GetCommitCounts | git_report_gen.py:93-107 | The number of pairs is the number of non-blank lines, and blank output gives no pairs. |
| Shortlog.ParseEntryLine | git_report_gen.py:101-105 | For an author that is non-empty, on one line and without surrounding blanks, and a count of at most 4300 digits, the line `PAD COUNT<TAB>AUTHOR` with any blank padding before the count (as `%6d` prints it) parses back to exactly that count and author. |
| Shortlog.ParseEntryLines | git_report_gen.py:99-107 | For such authors and counts, any list of printed, padded `COUNT<TAB>AUTHOR` lines is accepted line by line and read back as the entries that printed them, in order. |
| Shortlog.RenderThenParse | git_report_gen.py:93-107 | For such authors and counts, the text of any list of entries, one padded `COUNT<TAB>AUTHOR` line each, is accepted and read back as the same list in the same order. |
| Numbers.ParseInt | git_report_gen.py:103 | A text is read as a number exactly when, stripped, it is an optional sign followed by one to 4300 ASCII digits (CPython's default limit on decimal text), and it holds none of the information separators U+001C to U+001F, which `str.strip()` removes but `int()` does not skip. The value is the digits' decimal value, negated after a `-`. A blank text, and a digit string longer than the limit, is never a number. |
| Numbers.ParseIntToString | git_report_gen.py:248 | Reading back the decimal text of any integer of at most 4300 digits gives the integer. |
| Text.Strip | git_report_gen.py:101-104 | The result is the text with its leading and trailing whitespace removed: a contiguous piece of it with only blanks on either side, empty exactly for blank text, and otherwise starting and ending with a non-space character. |
| Text.StripPadded | git_report_gen.py:101-104 | Blanks around a text that starts and ends with a non-space character are exactly what stripping removes. |
| Text.Split | git_report_gen.py:242 | A split always gives at least one piece, and no piece holds the separator. |
| Text.SplitJoin | git_report_gen.py:242 | Splitting the join of separator-free pieces gives the pieces back. |
| Text.JoinSplit | git_report_gen.py:100 | Joining the pieces of a split with the separator gives the original text. |
| Text.SplitCount | git_report_gen.py:242-243 | A split yields one more piece than the text has separators. |
| Text.SplitOnce | git_report_gen.py:102 | `split(sep, 1)` gives the whole text when there is no separator. Otherwise it gives the text before the first separator and everything after it. |
| Text.SplitOnceAt | git_report_gen.py:102 | A text whose first separator follows `head` splits once into `head` and the rest. |
| Text.ContainsOccurs | git_report_gen.py:60 | `pattern in s` holds exactly when the pattern occurs at some position of the text. |
| Text.RemoveAll | git_report_gen.py:78 | `replace(p, "")` never lengthens the text and leaves text without `p` unchanged. |
| Text.ToLower | git_report_gen.py:249 | Lower-casing keeps the length, maps each character on its own, leaves no ASCII capital, and leaves text without capitals unchanged. |

## Left out

- Running git and `gh` (`run_git_command`, `run_gh_command`) is I/O. Each
  operation takes the text git printed instead. A failed command's `None`
  reads as the empty string, which every modelled caller treats like `None`.
- Commit hashes are not modelled: `DiffTree` takes the diff output of each
  listed commit. The blank-hash skip (lines 184-185) cannot fire on the
  stripped `git log` output.
- `get_detailed_commits`, the pull-request and issue queries through `gh`, and
  JSON decoding are I/O and foreign calls.
- The Markdown report, `main` and argument parsing are formatting and I/O.
- `calculate_since_date` is modelled up to the day count. Subtracting it from
  `datetime.now()` and formatting the date depend on the clock and on
  `datetime`. So does the `OverflowError` raised when a count `int()` accepts
  (at most 4300 digits) gives a day count outside the range of `timedelta` or
  of the date arithmetic. The `except` at line 266 does not catch it.
- The `try`/`except Exception` wrappers of `is_github_repo` and
  `get_github_repo_url`: nothing in the modelled text handling raises.
- Shortlog.GetCommitCounts: requires that in every non-blank line, the text
  before the first tab of the stripped line is an integer once stripped
  (`CountField`). Python's `int()` raises `ValueError` otherwise, and nothing
  catches it.
- Numbers.ParseInt: accepts an optional sign and ASCII digits only. It does
  not model the underscores between digits or the non-ASCII decimal digits
  that Python's `int()` also accepts. `git shortlog` output and the example
  ranges in the source's comments (`1.week`, `2.months`) use neither. The
  digit limit is fixed at CPython's default of 4300
  (`sys.set_int_max_str_digits` can change it). Pythons without the limit,
  before 3.11 and before the 2022 security releases of 3.7 to 3.10, read
  longer digit strings too. For those, `SinceDays.DaysOfOverlongCount` does
  not hold.
- Text.ToLower: lower-cases `A`-`Z` and the Kelvin sign only. Other characters
  that `str.lower()` changes cannot turn a word into one of the unit words.
- Text.RemoveAll: states the length bound and the no-occurrence case, not the
  full result. `RemoteUrl.RepoUrl` pins the result exactly when only the
  leading SSH prefix occurs.
- RemoteUrl.RepoUrl: its SSH clause assumes the prefix occurs only once.
  Python's `replace` removes every occurrence, and the function's body models
  that.

## Findings

| source | as written | input that shows it | evidently intended | confidence | as-written member | corrected member |
|---|---|---|---|---|---|---|
| git_report_gen.py:214-221 | The commits come from `git log`, newest first, and are replayed in that order. A delete is therefore met before the add that created the file. | `a.txt` created in one commit and deleted in the next: the diff outputs in log order are `D<TAB>a.txt`, then `A<TAB>a.txt`. The loop reports 1 deleted file. | The comment on the delete branch says "added then deleted = net zero": a file created and removed inside the range counts nothing (oldest-first replay). | medium, not executed | CommitOrder.CreatedThenDeletedAsWritten | CommitOrder.CreatedThenDeletedChronological |

`DiffTree.FileChangeStats` and `DiffTree.GetFileChangeStats` model the loop as
written. `CommitOrder.ChronologicalStats` is the corrected count.
`CommitOrder.CreatedThenDeletedCounts` proves both numbers for the concrete
two-commit input.
