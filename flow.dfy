/**
 * The program flow of main.go (`main` and `runDeletion`): list the branches,
 * ask which ones to delete and for a confirmation, delete them safely and,
 * when that fails, ask whether to force-delete what is left.
 *
 * The package-level variables `selectedBranches` and `confirmed` become the
 * fields of a `Session`; the prompts write them. What the user answers
 * (including aborting a prompt) and what git replies are inputs. Every
 * observable interaction (a git call or a prompt) is recorded in the
 * session's `log`, in order.
 */
module Flow {

  import opened Wrappers
  import opened Text
  import opened Branches
  import opened Deletion

  /** One observable interaction of the program. */
  datatype Step =
    | ListBranches                 // `git branch`
    | AskSelection(options: seq<string>)  // the multi-select and confirm form
    | SafeDelete(branch: string)   // `git branch -d <branch>`
    | AskForce                     // the force-delete confirmation
    | ForceDelete(branch: string)  // `git branch -D <branch>`
  {
    predicate IsDeletion() {
      SafeDelete? || ForceDelete?
    }
  }

  /** How the user left the selection form. */
  datatype FormAnswer =
    | Submitted(selection: seq<string>, confirm: bool)
    | FormAborted(message: string)

  /** How the user left the force-delete prompt. */
  datatype ConfirmAnswer =
    | Answered(yes: bool)
    | ConfirmAborted(message: string)

  /** Why the program exits with status 1. */
  datatype Failure =
    | ListingFailed(error: ListError)  // printed as is
    | PromptFailed(message: string)    // printed after "Uh oh:"
    | ForceDeleteFailed                // the failing `git branch -D`, printed after "Uh oh:"

  /** `Done` is exit status 0, `Fatal` exit status 1. */
  datatype Exit = Done | Fatal(failure: Failure)

  /** The package-level variables. */
  datatype Globals = Globals(selectedBranches: seq<string>, confirmed: bool)

  /** The new globals, the interactions made, and how the program ends. */
  datatype Outcome = Outcome(globals: Globals, steps: seq<Step>, exit: Exit)

  /** The git call deleting `branch`: `git branch -D` when `force`, `git branch -d` otherwise. */
  function DeleteStep(force: bool, branch: string): Step {
    if force then ForceDelete(branch) else SafeDelete(branch)
  }

  /** One delete call per branch, in order. */
  function DeleteSteps(force: bool, branches: seq<string>): (steps: seq<Step>)
    ensures |steps| == |branches|
  {
    if branches == [] then [] else [DeleteStep(force, branches[0])] + DeleteSteps(force, branches[1..])
  }

  /** What `runDeletion` does, starting from the globals `g`. */
  function RunDeletionOutcome(g: Globals, force: ConfirmAnswer, safeFailing: set<nat>, forceFailing: set<nat>): (o: Outcome)
    ensures o.globals.selectedBranches == g.selectedBranches
  {
    var selection := g.selectedBranches;
    var safeSteps := DeleteSteps(false, Attempted(selection, safeFailing));
    if !WalkFails(selection, safeFailing) then
      Outcome(g, safeSteps, Done)
    else
      var asked := safeSteps + [AskForce];
      match force
      case ConfirmAborted(message) => Outcome(g, asked, Fatal(PromptFailed(message)))
      case Answered(yes) =>
        var g' := g.(confirmed := yes);
        if !yes then
          Outcome(g', asked, Done)
        else
          var rest := Remainder(selection, safeFailing);
          var forceSteps := DeleteSteps(true, Attempted(rest, forceFailing));
          Outcome(g', asked + forceSteps, if WalkFails(rest, forceFailing) then Fatal(ForceDeleteFailed) else Done)
  }

  /** What `main` does once `branches` were listed: the form, then `runDeletion` if confirmed. */
  function AfterListing(g: Globals, branches: seq<string>, form: FormAnswer, force: ConfirmAnswer,
                        safeFailing: set<nat>, forceFailing: set<nat>): (a: Outcome)
    ensures |a.steps| >= 1 && a.steps[0] == AskSelection(branches)
  {
    match form
    case FormAborted(message) => Outcome(g, [AskSelection(branches)], Fatal(PromptFailed(message)))
    case Submitted(selection, confirm) =>
      var g' := Globals(selection, confirm);
      if !confirm then
        Outcome(g', [AskSelection(branches)], Done)
      else
        var d := RunDeletionOutcome(g', force, safeFailing, forceFailing);
        Outcome(d.globals, [AskSelection(branches)] + d.steps, d.exit)
  }

  /** What `main` does, starting from the globals `g`. */
  function MainOutcome(g: Globals, listing: GitRun, form: FormAnswer, force: ConfirmAnswer,
                       safeFailing: set<nat>, forceFailing: set<nat>): (o: Outcome)
    ensures |o.steps| >= 1 && o.steps[0] == ListBranches
  {
    match listing
    case RunFailed(message) => Outcome(g, [ListBranches], Fatal(ListingFailed(GitFailed(message))))
    case Ran(stdout) =>
      var candidates := Listed(listing);
      if candidates == [] then
        Outcome(g, [ListBranches], Fatal(ListingFailed(NoBranches)))
      else
        var a := AfterListing(g, candidates, form, force, safeFailing, forceFailing);
        Outcome(a.globals, [ListBranches] + a.steps, a.exit)
  }

  /** When listing fails or gives nothing, `main` stops right after `git branch`. */
  lemma MainOutcomeUnlisted(g: Globals, listing: GitRun, form: FormAnswer, force: ConfirmAnswer,
                            safeFailing: set<nat>, forceFailing: set<nat>, error: ListError)
    requires listing.RunFailed? ==> error == GitFailed(listing.message)
    requires listing.Ran? ==> Candidates(Split(listing.stdout, '\n')) == [] && error == NoBranches
    ensures MainOutcome(g, listing, form, force, safeFailing, forceFailing) == Outcome(g, [ListBranches], Fatal(ListingFailed(error)))
  {
  }

  /** When listing gives `branches`, `main` goes on with the form. */
  lemma MainOutcomeListed(g: Globals, listing: GitRun, form: FormAnswer, force: ConfirmAnswer,
                          safeFailing: set<nat>, forceFailing: set<nat>, branches: seq<string>)
    requires listing.Ran? && branches == Candidates(Split(listing.stdout, '\n')) != []
    ensures var a := AfterListing(g, branches, form, force, safeFailing, forceFailing);
      MainOutcome(g, listing, form, force, safeFailing, forceFailing) == Outcome(a.globals, [ListBranches] + a.steps, a.exit)
  {
  }

  /** After a confirmed form, `main` goes on with `runDeletion` on the selection. */
  lemma AfterListingConfirmed(g: Globals, branches: seq<string>, selection: seq<string>, force: ConfirmAnswer,
                              safeFailing: set<nat>, forceFailing: set<nat>)
    ensures var d := RunDeletionOutcome(Globals(selection, true), force, safeFailing, forceFailing);
      AfterListing(g, branches, Submitted(selection, true), force, safeFailing, forceFailing)
        == Outcome(d.globals, [AskSelection(branches)] + d.steps, d.exit)
  {
  }

  /** The process state of one run of the program. */
  class Session {
    var selectedBranches: seq<string>
    var confirmed: bool
    var log: seq<Step>

    function Snapshot(): Globals
      reads this`selectedBranches, this`confirmed
    {
      Globals(selectedBranches, confirmed)
    }

    /** The variables start at Go's zero values, and nothing has happened yet. */
    constructor ()
      ensures selectedBranches == [] && !confirmed && log == []
    {
      selectedBranches := [];
      confirmed := false;
      log := [];
    }

    /** `main`; the exit status it ends with is returned. */
    method Run(listing: GitRun, form: FormAnswer, force: ConfirmAnswer, safeFailing: set<nat>, forceFailing: set<nat>)
      returns (exit: Exit)
      modifies this
      ensures var o := MainOutcome(old(Snapshot()), listing, form, force, safeFailing, forceFailing);
        Snapshot() == o.globals && log == old(log) + o.steps && exit == o.exit
    {
      ghost var g := Snapshot();
      log := log + [ListBranches];
      var branches, err := GetBranches(listing);
      if err.Some? {
        MainOutcomeUnlisted(g, listing, form, force, safeFailing, forceFailing, err.value);
        return Fatal(ListingFailed(err.value));
      }
      MainOutcomeListed(g, listing, form, force, safeFailing, forceFailing, branches);
      exit := ShowForm(branches, form, force, safeFailing, forceFailing);
    }

    /**
     * The rest of `main` once `branches` were listed: the selection form with
     * its confirmation, then `runDeletion` if the user confirmed.
     */
    method ShowForm(branches: seq<string>, form: FormAnswer, force: ConfirmAnswer,
                    safeFailing: set<nat>, forceFailing: set<nat>) returns (exit: Exit)
      modifies this
      ensures var a := AfterListing(old(Snapshot()), branches, form, force, safeFailing, forceFailing);
        Snapshot() == a.globals && log == old(log) + a.steps && exit == a.exit
    {
      log := log + [AskSelection(branches)];
      match form {
        case FormAborted(message) =>
          return Fatal(PromptFailed(message));
        case Submitted(selection, confirm) =>
          selectedBranches, confirmed := selection, confirm;
      }
      if confirmed {
        AfterListingConfirmed(old(Snapshot()), branches, selectedBranches, force, safeFailing, forceFailing);
        ghost var log1 := log;
        exit := RunDeletion(force, safeFailing, forceFailing);
        assert log == old(log) + ([AskSelection(branches)] + log[|log1|..]) by {
          assert log == log1 + log[|log1|..];
        }
      } else {
        exit := Done;
      }
    }

    /** `runDeletion`; the exit status it ends with is returned. */
    method RunDeletion(force: ConfirmAnswer, safeFailing: set<nat>, forceFailing: set<nat>) returns (exit: Exit)
      modifies this
      ensures var o := RunDeletionOutcome(old(Snapshot()), force, safeFailing, forceFailing);
        Snapshot() == o.globals && log == old(log) + o.steps && exit == o.exit
    {
      var branches, failed, attempted := DeleteBranches(selectedBranches, safeFailing);
      log := log + DeleteSteps(false, attempted);
      if failed {
        log := log + [AskForce];
        match force {
          case ConfirmAborted(message) =>
            return Fatal(PromptFailed(message));
          case Answered(yes) =>
            confirmed := yes;
        }
        if confirmed {
          var forceFailed, forced := ForceDeleteBranches(branches, forceFailing);
          log := log + DeleteSteps(true, forced);
          if forceFailed {
            return Fatal(ForceDeleteFailed);
          }
        }
      }
      return Done;
    }
  }
}
