# gdmult — a verified model of the branch-deletion flow

gdmult is a small command-line tool. It lists the local git branches, lets the user pick some in a
multi-select form and asks for confirmation. It then runs `git branch -d` on each picked branch in
order. If a safe delete fails, it asks whether to force-delete and, on yes, runs `git branch -D` on
the branches that were not deleted.

This project models the whole of `main.go` in Dafny:

- `Text`: Go's `strings.Split` with a one-character separator, its inverse `Join`, and `strings.HasPrefix`.
- `Branches`: `getBranches`, the parser for the output of `git branch`. It splits the output on
  `"\n"` and keeps each line that is not empty and does not start with `*`. Lines are kept
  unchanged. It fails when git fails or no line is left.
- `Deletion`: `deleteBranches` and `forceDeleteBranches`. Both walk the selection in order and
  stop at the first failing call. The safe walk returns the suffix of the selection that starts at
  the failing branch.
- `Flow`: `main` and `runDeletion`. The package variables `selectedBranches` and `confirmed` are the
  fields of class `Session`, and the session keeps a log of every git call and prompt.
  The functions `MainOutcome` and `RunDeletionOutcome` give what `main` and `runDeletion` do, as
  values; the methods `Session.Run` and `Session.RunDeletion` are proved against them. `main` is written as two methods:
  `Session.Run` does the listing, and `Session.ShowForm` does the rest (the form, the confirmation
  gate, and the call of `runDeletion`). `ShowForm` is proved against `AfterListing`.
- `FlowProperties`: what the flow guarantees, proved over `MainOutcome` for every input.

The external world is made of inputs:

- The output of `git branch` is a `GitRun`: either its standard output, or the error of running it.
- The replies to the `git branch -d` / `-D` calls of one walk are a set `failing: set<nat>`. Call
  number i (counting from 0) exits with a non-zero status exactly when i is in `failing`. The i-th
  call of a walk is always for the i-th branch of that walk.
- The form and the force prompt are `FormAnswer` and `ConfirmAnswer` values. Each is either the
  user's answer or an abort with its message.
- The exit status is the `Exit` value returned: `Done` is status 0, `Fatal` is status 1.

## Model

| member | source | states |
|---|---|---|
| `Text.Split` | main.go:87 | splitting gives at least one piece, even for the empty text |
| `Text.SplitPieces` | main.go:87 | no piece of a split contains the separator |
| `Text.JoinSplit` | main.go:87 | joining the pieces of a split text with the separator gives back the text, so no character is lost |
| `Text.SplitJoin` | main.go:87 | splitting the join of separator-free pieces gives back exactly those pieces |
| `Branches.IsCurrentBranchLine` | main.go:91 | `strings.HasPrefix(item, "*")` holds exactly when the line is non-empty and its first character is `*` |
| `Branches.Deletable` | main.go:91 | a line is offered exactly when it is non-empty and does not start with `*` |
| `Branches.Listed` | main.go:74-95 | the branches offered after `git branch`: none when it could not be run, and every one offered is deletable |
| `Branches.Candidates` | main.go:88-95 | every kept line is non-empty and not marked current; never more lines than the input |
| `Branches.CandidatesMembers` | main.go:90-95 | a line is kept iff it is one of the input lines and qualifies |
| `Branches.CandidatesAppend` | main.go:90-95 | the filter distributes over concatenation, so the kept lines stay in their original order |
| `Branches.CandidatesKeepsDeletable` | main.go:94 | lines that all qualify come out unchanged: no trimming and no rewriting |
| `Branches.CandidatesEmpty` | main.go:97 | nothing is left exactly when no line qualifies |
| `Branches.GetBranches` | main.go:74-102 | a git failure gives that error and no branches; otherwise the result is exactly the qualifying lines of the split output; an empty result gives the "no branches" error; there is no error iff the list is non-empty; no returned name is empty or starts with `*` |
| `Branches.ParseListing` | main.go:86-95 | parsing newline-terminated lines, as `git branch` prints them, gives exactly the qualifying printed lines, in order |
| `Branches.ParseTypicalListing` | main.go:86-95 | `"* main\n  dev\n  wip\n"` yields `["  dev", "  wip"]`, with git's indent kept |
| `Deletion.FirstFailure` | main.go:105-115 | the index where a walk stops: every earlier call succeeds, the call at that index fails, or the index equals the length when all succeed |
| `Deletion.Deleted` | main.go:105-115 | the branches a walk deleted are a prefix of the selection; all their calls succeeded, and the call just after them failed |
| `Deletion.Remainder` | main.go:113-118 | the remainder is a suffix of the selection; it is empty iff every call succeeds; a non-empty remainder starts at the failing call |
| `Deletion.DeletedThenRemainder` | main.go:105-118 | the deleted branches followed by the remainder make up the selection |
| `Deletion.Attempted` | main.go:105-115 | the calls made are a prefix of the selection: all of it when nothing fails; otherwise the last call is the failing one and every earlier call succeeded |
| `Deletion.AttemptedOnFailure` | main.go:105-115 | a failing walk calls git for the deleted branches and then for the first branch handed back, and nothing after it |
| `Deletion.DeleteBranches` | main.go:104-119 | fails iff some call fails; returns the remainder (nothing when no call fails, an empty selection included); makes exactly the attempted calls, in order |
| `Deletion.ForceDeleteBranches` | main.go:121-136 | fails iff some call fails; makes exactly the attempted calls, in order, so it stops at the first failure |
| `Deletion.SafeThenForceDeletesAll` | main.go:53-65 | when the force walk over the remainder succeeds, each selected branch is deleted by exactly one of the two walks, in selection order |
| `Flow.Session.constructor` | main.go:15-18 | the package variables start at Go's zero values (no selection, not confirmed), and nothing has happened yet |
| `Flow.RunDeletionOutcome` | main.go:52-72 | what `runDeletion` does, as a value: it never changes the selection. The `FlowProperties` lemmas describe its steps and exit status. `DeletionStepAt` gives each step by position. `SafeDeletesFollowSelection`, `ForcePromptOnlyAfterSafeFailure` and `ForceWalkRunsAfterYes` give the safe walk, the prompt and, after a yes, the whole force walk, which ends the log. `FatalExactly` gives the exit status |
| `Flow.AfterListing` | main.go:27-49 | what `main` does after the listing, as a value: it starts with the form offering the listed branches |
| `Flow.MainOutcome` | main.go:20-50 | what `main` does, as a value: every run starts with `git branch`. Its steps and exit status are described by the `FlowProperties` lemmas listed for `RunDeletionOutcome`, together with `SelectionNeedsBranches` for the listing and the form |
| `Flow.MainOutcomeUnlisted` | main.go:21-25 | proof step, one case of `MainOutcome`: when `git branch` fails or lists nothing, `main` stops with that error right after the listing, and the variables are untouched |
| `Flow.MainOutcomeListed` | main.go:21-49 | proof step, one case of `MainOutcome`: when branches are listed, `main` is the listing followed by the form on exactly those branches |
| `Flow.AfterListingConfirmed` | main.go:41-49 | proof step, one case of `AfterListing`: after a confirmed form, `main` shows the form and then runs `runDeletion` on the selection |
| `Flow.Session.Run` | main.go:20-50 | `main` leaves the variables, the log and the exit status exactly as `MainOutcome` gives them |
| `Flow.Session.ShowForm` | main.go:27-49 | the form and the confirmation gate leave the variables, the log and the exit status exactly as `AfterListing` gives them |
| `Flow.Session.RunDeletion` | main.go:52-72 | `runDeletion` leaves the variables, the log and the exit status exactly as `RunDeletionOutcome` gives them; `confirmed` is overwritten only by an answered force prompt |
| `FlowProperties.DeleteStepsAt` | main.go:105-106 | the i-th step of a delete walk's log is the git call for its i-th branch (`-d` for the safe walk, `-D` for the force walk, main.go:122-123) |
| `FlowProperties.DeletionStepAt` | main.go:53-65 | `runDeletion` makes the safe deletes in order, then the force prompt only if a safe delete failed, then force deletes only after a yes |
| `FlowProperties.SelectionNeedsBranches` | main.go:21-25 | when no branch is listed, the program stops with status 1 right after `git branch` and nothing else happens; otherwise the form offers exactly the listed branches |
| `FlowProperties.NoDeletionWithoutConfirmation` | main.go:47-49 | a delete of either kind happens only if the form was submitted with confirmation |
| `FlowProperties.SafeDeletesFollowSelection` | main.go:105-115 | the k-th safe delete is for the k-th selected branch, and every earlier call succeeded; a confirmed non-empty selection starts with a delete of its first branch |
| `FlowProperties.ForcePromptOnlyAfterSafeFailure` | main.go:53-58 | the force prompt is shown iff the user confirmed and a safe delete failed |
| `FlowProperties.ForceDeletesOnlyRemainder` | main.go:64-65 | a force delete in the log happens only after a yes to the force prompt, and each one is the call of the force walk over the remainder for the branch at its position |
| `FlowProperties.ForceWalkRunsAfterYes` | main.go:53-65 | after a failed safe delete and a yes, the force walk over the remainder does run: its calls, in order, are the rest of the log |
| `FlowProperties.FatalExactly` | main.go:20-72 | the exit status is 1 iff no branch is listed, a prompt is aborted, or a forced delete fails |
| `FlowProperties.SafeWalkRunLog` | main.go:20-72 | when every safe delete succeeds, the whole log is `git branch`, the form offering the listed branches, and one successful `git branch -d` per selected branch, in order, and nothing else |
| `FlowProperties.ForcedLogShape` | main.go:53-65 | proof step over a plain log: a log that starts with the listing and the form, continues with the safe walk's calls (the last one failing) and the prompt, and ends with a force walk that succeeds, has the form `LogDeletesEachOnce` describes |
| `FlowProperties.ForcedRunLog` | main.go:20-65 | when a safe delete fails, the user says yes and the force walk succeeds, the whole log is `git branch`, the form offering the listed branches, a successful `git branch -d` for each branch before the failing one, the failed `git branch -d` for the failing branch, the force prompt, and a successful `git branch -D` for the failing branch and every later one, and nothing else |
| `FlowProperties.ConfirmedRunOutcome` | main.go:20-72 | after a confirmed run that ends normally, the whole log is `git branch`, the form offering the listed branches, and exactly one successful delete call per selected branch; when a safe delete failed, that failed call and the force prompt sit between the safe and the force calls, at the failing position. If the force prompt was declined, a non-empty remainder is left instead and the log has no force delete |
| `FlowProperties.ConfirmedRunStartsWithForm` | main.go:20-49 | a confirmed run's log starts with `git branch` and then the form offering exactly the listed branches |
| `FlowProperties.ForcePromptFollowsFailedCall` | main.go:53-58 | when a safe delete fails, the force prompt is the step right after that failed call |
| `FlowProperties.EmptySelectionIsNoOp` | main.go:105 | an empty confirmed selection calls git no more and ends normally |
| `FlowProperties.ConfirmedMainOutcome` | main.go:47-48 | proof step, `MainOutcomeListed` then `AfterListingConfirmed`: after a confirmed form, `main` is the listing, the form, and then `runDeletion` on the selection |
| `FlowProperties.DeclinedForceKeepsBranch` | main.go:53-65 | picking `wip`, whose safe delete fails, and declining to force ends normally with no force delete |
| `FlowProperties.DeclinedForceOnTypicalListing` | main.go:86-95 | the same run, starting from the typical `git branch` output, ends normally |

Two points of main.go that the model keeps as written:

- `getBranches` keeps each line exactly as git printed it (main.go:94), so names keep git's
  two-space indent. Read as written, main.go:106 and main.go:123 pass that indented name to
  `git branch -d` and `git branch -D`; `FlowProperties.DeclinedForceKeepsBranch` shows the step
  `SafeDelete("  wip")` for the listed line `"  wip"`.
- Deletion makes one git call per branch, and only the remainder from the first failing call goes
  to force delete (main.go:105-115).

## Left out

- Process execution (`exec.Command`, the `exec.ErrDot` workaround, `cmd.Run`, stdout buffering): each git call is an input (`GitRun` or an oracle reply).
- The `huh` form library (building and rendering forms, accessible mode from the `ACCESSIBLE` environment variable): prompt results, including aborts, are inputs.
- The text printed with `fmt.Println` and the `os.Exit` calls: they are the returned `Exit` value. `Fatal` carries the failure rather than the printed text.
- Error messages from a failing `git branch -d/-D` are not modelled; only pass or fail is.
- The form library restricts the selection to the offered branches. `main.go` does not check this, so the model accepts any selection.
- An aborted form or prompt leaves the variables as they were. The form library may already have written
  some of them, but the program exits right after, so nothing reads them.
- Go strings are byte strings; here a string is a sequence of Unicode characters. Splitting on `'\n'` and testing for `'*'` behave the same on valid UTF-8, but `git branch` output or a branch name holding bytes that are not valid UTF-8 cannot be represented.
