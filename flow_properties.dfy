/**
 * What the program flow of main.go guarantees, stated over `MainOutcome` for
 * every listing, every answer of the user and every reply of git.
 *
 * Apart from `DeleteStepsAt`, the lemmas here are proved by unfolding
 * `MainOutcome`, not by induction; those of them marked `{:induction false}`
 * carry it only so that the verifier does not add induction hypotheses over
 * their arguments, which makes their proofs slower without helping them.
 */
module FlowProperties {

  import opened Text
  import opened Branches
  import opened Deletion
  import opened Flow

  /** The user was shown the form, picked branches and confirmed. */
  predicate ConfirmedDeletion(listing: GitRun, form: FormAnswer) {
    Listed(listing) != [] && form.Submitted? && form.confirm
  }

  /** The i-th step of a delete walk is the call for its i-th branch. */
  lemma {:induction false} DeleteStepsAt(force: bool, branches: seq<string>, i: int)
    requires 0 <= i < |branches|
    ensures DeleteSteps(force, branches)[i] == DeleteStep(force, branches[i])
  {
    if i > 0 {
      DeleteStepsAt(force, branches[1..], i - 1);
    }
  }

  /** The j-th interaction of `runDeletion`: safe deletes, then the force prompt, then force deletes. */
  lemma DeletionStepAt(g: Globals, force: ConfirmAnswer, safeFailing: set<nat>, forceFailing: set<nat>, j: int)
    requires 0 <= j < |RunDeletionOutcome(g, force, safeFailing, forceFailing).steps|
    ensures var d := RunDeletionOutcome(g, force, safeFailing, forceFailing);
      var attempted := Attempted(g.selectedBranches, safeFailing);
      var forced := Attempted(Remainder(g.selectedBranches, safeFailing), forceFailing);
      && (j < |attempted| ==> d.steps[j] == SafeDelete(attempted[j]))
      && (j == |attempted| ==> WalkFails(g.selectedBranches, safeFailing) && d.steps[j] == AskForce)
      && (j > |attempted| ==>
            && WalkFails(g.selectedBranches, safeFailing) && force == Answered(true)
            && j - |attempted| - 1 < |forced| && d.steps[j] == ForceDelete(forced[j - |attempted| - 1]))
  {
    var d := RunDeletionOutcome(g, force, safeFailing, forceFailing);
    var attempted := Attempted(g.selectedBranches, safeFailing);
    var forced := Attempted(Remainder(g.selectedBranches, safeFailing), forceFailing);
    if j < |attempted| {
      DeleteStepsAt(false, attempted, j);
    }
    if !WalkFails(g.selectedBranches, safeFailing) {
      assert d.steps == DeleteSteps(false, attempted);
    } else if force == Answered(true) {
      assert d.steps == DeleteSteps(false, attempted) + [AskForce] + DeleteSteps(true, forced);
      if j > |attempted| {
        DeleteStepsAt(true, forced, j - |attempted| - 1);
      }
    } else {
      assert d.steps == DeleteSteps(false, attempted) + [AskForce];
    }
  }

  /**
   * The selection form is shown only when the listing gave branches; otherwise
   * the program ends with status 1 right after `git branch`, and nothing else
   * happens.
   */
  lemma {:induction false} SelectionNeedsBranches(g: Globals, listing: GitRun, form: FormAnswer, force: ConfirmAnswer,
                                                  safeFailing: set<nat>, forceFailing: set<nat>)
    ensures var o := MainOutcome(g, listing, form, force, safeFailing, forceFailing);
      && (Listed(listing) == [] <==> o.steps == [ListBranches])
      && (Listed(listing) == [] ==> o.exit.Fatal? && o.globals == g)
      && (Listed(listing) != [] ==> |o.steps| >= 2 && o.steps[..2] == [ListBranches, AskSelection(Listed(listing))])
  {
    var o := MainOutcome(g, listing, form, force, safeFailing, forceFailing);
    if Listed(listing) != [] {
      var shown := [ListBranches, AskSelection(Listed(listing))];
      assert o.steps[..2] == shown;
      assert o.steps != [ListBranches] by {
        assert |o.steps| >= 2;
      }
    }
  }

  /** No branch is deleted, safely or by force, unless the user confirmed. */
  lemma {:induction false} NoDeletionWithoutConfirmation(g: Globals, listing: GitRun, form: FormAnswer, force: ConfirmAnswer,
                                                         safeFailing: set<nat>, forceFailing: set<nat>, i: int)
    requires var o := MainOutcome(g, listing, form, force, safeFailing, forceFailing);
      0 <= i < |o.steps| && o.steps[i].IsDeletion()
    ensures ConfirmedDeletion(listing, form)
  {
  }

  /**
   * The safe deletes follow the selection: the k-th `git branch -d` is for the
   * k-th selected branch, and every earlier one succeeded. A confirmed,
   * non-empty selection always starts with a delete of its first branch.
   */
  lemma {:induction false} SafeDeletesFollowSelection(g: Globals, listing: GitRun, form: FormAnswer, force: ConfirmAnswer,
                                                      safeFailing: set<nat>, forceFailing: set<nat>)
    requires ConfirmedDeletion(listing, form)
    ensures var o := MainOutcome(g, listing, form, force, safeFailing, forceFailing);
      var sel := form.selection;
      && |Attempted(sel, safeFailing)| + 2 <= |o.steps|
      && (forall k :: 0 <= k < |Attempted(sel, safeFailing)| ==>
            o.steps[k + 2] == SafeDelete(sel[k]) && (forall j :: 0 <= j < k ==> j !in safeFailing))
      && (sel != [] ==> o.steps[2] == SafeDelete(sel[0]))
  {
    var o := MainOutcome(g, listing, form, force, safeFailing, forceFailing);
    var sel := form.selection;
    var attempted := Attempted(sel, safeFailing);
    var d := RunDeletionOutcome(Globals(sel, true), force, safeFailing, forceFailing);
    ConfirmedMainOutcome(g, listing, form, force, safeFailing, forceFailing);
    assert d.steps[..|attempted|] == DeleteSteps(false, attempted);
    forall k | 0 <= k < |attempted|
      ensures o.steps[k + 2] == SafeDelete(sel[k]) && (forall j :: 0 <= j < k ==> j !in safeFailing)
    {
      DeleteStepsAt(false, attempted, k);
      assert o.steps[k + 2] == d.steps[k];
      assert FirstFailure(|sel|, safeFailing) >= k;
    }
    if sel != [] {
      assert |attempted| >= 1;
    }
  }

  /**
   * The force prompt is shown exactly when the user confirmed and a safe
   * delete failed.
   */
  lemma {:induction false} ForcePromptOnlyAfterSafeFailure(g: Globals, listing: GitRun, form: FormAnswer, force: ConfirmAnswer,
                                                           safeFailing: set<nat>, forceFailing: set<nat>)
    ensures var o := MainOutcome(g, listing, form, force, safeFailing, forceFailing);
      AskForce in o.steps <==> ConfirmedDeletion(listing, form) && WalkFails(form.selection, safeFailing)
  {
    var o := MainOutcome(g, listing, form, force, safeFailing, forceFailing);
    if ConfirmedDeletion(listing, form) {
      var sel := form.selection;
      var attempted := Attempted(sel, safeFailing);
      ConfirmedMainOutcome(g, listing, form, force, safeFailing, forceFailing);
      if WalkFails(sel, safeFailing) {
        DeletionStepAt(Globals(sel, true), force, safeFailing, forceFailing, |attempted|);
        assert o.steps[|attempted| + 2] == AskForce;
      } else {
        forall k | 0 <= k < |o.steps|
          ensures o.steps[k] != AskForce
        {
          if k >= 2 {
            DeletionStepAt(Globals(sel, true), force, safeFailing, forceFailing, k - 2);
          }
        }
      }
    } else {
      assert |o.steps| <= 2;
      assert forall k :: 0 <= k < |o.steps| ==> !o.steps[k].AskForce?;
    }
  }

  /**
   * Force delete runs only after the user accepted the force prompt, and
   * only on what the safe walk left: every `git branch -D` call in the log is
   * the call of a force walk over `Remainder` for the branch at its position.
   */
  lemma {:induction false} ForceDeletesOnlyRemainder(g: Globals, listing: GitRun, form: FormAnswer, force: ConfirmAnswer,
                                                     safeFailing: set<nat>, forceFailing: set<nat>, i: int)
    requires var o := MainOutcome(g, listing, form, force, safeFailing, forceFailing);
      0 <= i < |o.steps| && o.steps[i].ForceDelete?
    ensures ConfirmedDeletion(listing, form) && WalkFails(form.selection, safeFailing) && force == Answered(true)
    ensures var o := MainOutcome(g, listing, form, force, safeFailing, forceFailing);
      var rest := Remainder(form.selection, safeFailing);
      var start := |Attempted(form.selection, safeFailing)| + 3;
      && start <= i < start + |Attempted(rest, forceFailing)|
      && o.steps[i].branch == rest[i - start]
  {
    var o := MainOutcome(g, listing, form, force, safeFailing, forceFailing);
    NoDeletionWithoutConfirmation(g, listing, form, force, safeFailing, forceFailing, i);
    ConfirmedMainOutcome(g, listing, form, force, safeFailing, forceFailing);
    var d := RunDeletionOutcome(Globals(form.selection, true), force, safeFailing, forceFailing);
    assert o.steps[i] == d.steps[i - 2];
    DeletionStepAt(Globals(form.selection, true), force, safeFailing, forceFailing, i - 2);
  }

  /**
   * After a safe delete failed and the user accepted the force prompt, the
   * whole force walk over the remainder runs: its calls, in order, end the log.
   */
  lemma {:induction false} ForceWalkRunsAfterYes(g: Globals, listing: GitRun, form: FormAnswer,
                                                 safeFailing: set<nat>, forceFailing: set<nat>)
    requires ConfirmedDeletion(listing, form) && WalkFails(form.selection, safeFailing)
    ensures var o := MainOutcome(g, listing, form, Answered(true), safeFailing, forceFailing);
      var start := |Attempted(form.selection, safeFailing)| + 3;
      var forced := Attempted(Remainder(form.selection, safeFailing), forceFailing);
      && |o.steps| == start + |forced|
      && forall k :: 0 <= k < |forced| ==> o.steps[start + k] == ForceDelete(forced[k])
  {
    var o := MainOutcome(g, listing, form, Answered(true), safeFailing, forceFailing);
    var attempted := Attempted(form.selection, safeFailing);
    var forced := Attempted(Remainder(form.selection, safeFailing), forceFailing);
    ConfirmedMainOutcome(g, listing, form, Answered(true), safeFailing, forceFailing);
    assert o.steps == [ListBranches, AskSelection(Listed(listing))]
      + DeleteSteps(false, attempted) + [AskForce] + DeleteSteps(true, forced);
    forall k | 0 <= k < |forced|
      ensures o.steps[|attempted| + 3 + k] == ForceDelete(forced[k])
    {
      DeleteStepsAt(true, forced, k);
    }
  }

  /**
   * The program ends with status 1 exactly when listing gives no branches, a
   * prompt is aborted, or a forced delete fails.
   */
  lemma {:induction false} FatalExactly(g: Globals, listing: GitRun, form: FormAnswer, force: ConfirmAnswer,
                                        safeFailing: set<nat>, forceFailing: set<nat>)
    ensures var o := MainOutcome(g, listing, form, force, safeFailing, forceFailing);
      o.exit.Fatal? <==>
        || Listed(listing) == []
        || form.FormAborted?
        || (ConfirmedDeletion(listing, form) && WalkFails(form.selection, safeFailing) &&
            (force.ConfirmAborted? ||
             (force == Answered(true) && WalkFails(Remainder(form.selection, safeFailing), forceFailing))))
  {
    if listing.Ran? && Listed(listing) != [] && form.Submitted? && form.confirm {
      var d := RunDeletionOutcome(Globals(form.selection, true), force, safeFailing, forceFailing);
      assert MainOutcome(g, listing, form, force, safeFailing, forceFailing).exit == d.exit;
    }
  }

  /** A confirmed run starts with `git branch` and the form offering the listed branches. */
  lemma ConfirmedRunStartsWithForm(g: Globals, listing: GitRun, form: FormAnswer, force: ConfirmAnswer,
                                   safeFailing: set<nat>, forceFailing: set<nat>)
    requires ConfirmedDeletion(listing, form)
    ensures var steps := MainOutcome(g, listing, form, force, safeFailing, forceFailing).steps;
      |steps| >= 2 && steps[0] == ListBranches && steps[1] == AskSelection(Listed(listing))
  {
    var steps := MainOutcome(g, listing, form, force, safeFailing, forceFailing).steps;
    SelectionNeedsBranches(g, listing, form, force, safeFailing, forceFailing);
    assert steps[0] == steps[..2][0] && steps[1] == steps[..2][1];
  }

  /** When a safe delete fails, the force prompt comes right after that failed call. */
  lemma ForcePromptFollowsFailedCall(g: Globals, listing: GitRun, form: FormAnswer, force: ConfirmAnswer,
                                     safeFailing: set<nat>, forceFailing: set<nat>)
    requires ConfirmedDeletion(listing, form) && WalkFails(form.selection, safeFailing)
    ensures var steps := MainOutcome(g, listing, form, force, safeFailing, forceFailing).steps;
      var at := |Attempted(form.selection, safeFailing)| + 2;
      at < |steps| && steps[at] == AskForce
  {
    var sel := form.selection;
    var attempted := Attempted(sel, safeFailing);
    ConfirmedMainOutcome(g, listing, form, force, safeFailing, forceFailing);
    assert |DeleteSteps(false, attempted)| == |attempted|;
    DeletionStepAt(Globals(sel, true), force, safeFailing, forceFailing, |attempted|);
  }

  /**
   * The log of a confirmed run, step by step: `git branch`, the form offering
   * `offered`, then exactly one successful delete call for every selected
   * branch. That is a `git branch -d` for each branch before the first failing
   * one and, when one failed, the failed `git branch -d`, the force prompt and
   * a `git branch -D` for the failing branch and every later one.
   */
  predicate LogDeletesEachOnce(steps: seq<Step>, offered: seq<string>, sel: seq<string>,
                               safeFailing: set<nat>, forceFailing: set<nat>) {
    var d := |Deleted(sel, safeFailing)|;
    && |steps| == |sel| + (if d < |sel| then 4 else 2)
    && steps[0] == ListBranches && steps[1] == AskSelection(offered)
    && (d < |sel| ==> steps[d + 2] == SafeDelete(sel[d]) && d in safeFailing && steps[d + 3] == AskForce)
    && forall j :: 0 <= j < |sel| ==>
         if j < d then steps[j + 2] == SafeDelete(sel[j]) && j !in safeFailing
         else steps[j + 4] == ForceDelete(sel[j]) && (j - d) !in forceFailing
  }

  /** A confirmed run whose safe walk succeeds logs one successful `git branch -d` per branch. */
  lemma {:induction false} SafeWalkRunLog(g: Globals, listing: GitRun, form: FormAnswer, force: ConfirmAnswer,
                                          safeFailing: set<nat>, forceFailing: set<nat>)
    requires ConfirmedDeletion(listing, form) && !WalkFails(form.selection, safeFailing)
    ensures LogDeletesEachOnce(MainOutcome(g, listing, form, force, safeFailing, forceFailing).steps,
                               Listed(listing), form.selection, safeFailing, forceFailing)
  {
    var sel := form.selection;
    var steps := MainOutcome(g, listing, form, force, safeFailing, forceFailing).steps;
    ConfirmedRunStartsWithForm(g, listing, form, force, safeFailing, forceFailing);
    SafeDeletesFollowSelection(g, listing, form, force, safeFailing, forceFailing);
    ConfirmedMainOutcome(g, listing, form, force, safeFailing, forceFailing);
    assert Deleted(sel, safeFailing) == sel;
  }

  /**
   * A log made of the safe walk's calls (its last one failing), the force
   * prompt and a force walk over the remainder that succeeds holds one
   * successful delete call per branch.
   */
  lemma ForcedLogShape(steps: seq<Step>, offered: seq<string>, sel: seq<string>,
                        safeFailing: set<nat>, forceFailing: set<nat>)
    requires WalkFails(sel, safeFailing) && !WalkFails(Remainder(sel, safeFailing), forceFailing)
    requires |Attempted(sel, safeFailing)| + 3 <= |steps|
    requires steps[0] == ListBranches && steps[1] == AskSelection(offered)
    requires forall k :: 0 <= k < |Attempted(sel, safeFailing)| ==> steps[k + 2] == SafeDelete(sel[k])
    requires steps[|Attempted(sel, safeFailing)| + 2] == AskForce
    requires var start := |Attempted(sel, safeFailing)| + 3;
      var forced := Attempted(Remainder(sel, safeFailing), forceFailing);
      && |steps| == start + |forced|
      && forall k :: 0 <= k < |forced| ==> steps[start + k] == ForceDelete(forced[k])
    ensures LogDeletesEachOnce(steps, offered, sel, safeFailing, forceFailing)
  {
    var d := |Deleted(sel, safeFailing)|;
    var rest := Remainder(sel, safeFailing);
    AttemptedOnFailure(sel, safeFailing);
    DeletedThenRemainder(sel, safeFailing);
    assert Attempted(rest, forceFailing) == rest;
    forall j | d <= j < |sel|
      ensures steps[j + 4] == ForceDelete(sel[j]) && (j - d) !in forceFailing
    {
      assert rest[j - d] == sel[j];
      assert steps[(d + 1 + 3) + (j - d)] == ForceDelete(rest[j - d]);
    }
  }

  /**
   * A confirmed run whose safe walk fails, and whose force walk after a yes
   * succeeds, logs one successful delete call per branch.
   */
  lemma {:induction false} ForcedRunLog(g: Globals, listing: GitRun, form: FormAnswer,
                                        safeFailing: set<nat>, forceFailing: set<nat>)
    requires ConfirmedDeletion(listing, form) && WalkFails(form.selection, safeFailing)
    requires !WalkFails(Remainder(form.selection, safeFailing), forceFailing)
    ensures LogDeletesEachOnce(MainOutcome(g, listing, form, Answered(true), safeFailing, forceFailing).steps,
                               Listed(listing), form.selection, safeFailing, forceFailing)
  {
    var sel := form.selection;
    var steps := MainOutcome(g, listing, form, Answered(true), safeFailing, forceFailing).steps;
    var attempted := Attempted(sel, safeFailing);
    var forced := Attempted(Remainder(sel, safeFailing), forceFailing);
    assert |attempted| + 2 <= |steps| && forall k :: 0 <= k < |attempted| ==> steps[k + 2] == SafeDelete(sel[k]) by {
      SafeDeletesFollowSelection(g, listing, form, Answered(true), safeFailing, forceFailing);
    }
    assert |steps| == |attempted| + 3 + |forced|
      && forall k :: 0 <= k < |forced| ==> steps[|attempted| + 3 + k] == ForceDelete(forced[k]) by {
      ForceWalkRunsAfterYes(g, listing, form, safeFailing, forceFailing);
    }
    assert steps[0] == ListBranches && steps[1] == AskSelection(Listed(listing)) by {
      ConfirmedRunStartsWithForm(g, listing, form, Answered(true), safeFailing, forceFailing);
    }
    assert steps[|attempted| + 2] == AskForce by {
      ForcePromptFollowsFailedCall(g, listing, form, Answered(true), safeFailing, forceFailing);
    }
    ForcedLogShape(steps, Listed(listing), sel, safeFailing, forceFailing);
  }

  /**
   * When the user confirmed and the program ends normally, the log holds
   * exactly one successful delete call for every selected branch. The
   * exception is a declined force prompt: then the branches from the failing
   * one on are left and none of them is force-deleted.
   */
  lemma {:induction false} ConfirmedRunOutcome(g: Globals, listing: GitRun, form: FormAnswer, force: ConfirmAnswer,
                                               safeFailing: set<nat>, forceFailing: set<nat>)
    requires ConfirmedDeletion(listing, form)
    requires MainOutcome(g, listing, form, force, safeFailing, forceFailing).exit == Done
    ensures var sel := form.selection;
      var o := MainOutcome(g, listing, form, force, safeFailing, forceFailing);
      if WalkFails(sel, safeFailing) && force == Answered(false) then
        Remainder(sel, safeFailing) != [] && forall k :: 0 <= k < |o.steps| ==> !o.steps[k].ForceDelete?
      else
        LogDeletesEachOnce(o.steps, Listed(listing), sel, safeFailing, forceFailing)
  {
    var sel := form.selection;
    var o := MainOutcome(g, listing, form, force, safeFailing, forceFailing);
    if WalkFails(sel, safeFailing) && force == Answered(false) {
      forall k | 0 <= k < |o.steps|
        ensures !o.steps[k].ForceDelete?
      {
        if o.steps[k].ForceDelete? {
          ForceDeletesOnlyRemainder(g, listing, form, force, safeFailing, forceFailing, k);
        }
      }
    } else if WalkFails(sel, safeFailing) {
      FatalExactly(g, listing, form, force, safeFailing, forceFailing);
      ForcedRunLog(g, listing, form, safeFailing, forceFailing);
    } else {
      SafeWalkRunLog(g, listing, form, force, safeFailing, forceFailing);
    }
  }

  /**
   * An empty confirmed selection deletes nothing and ends normally: the form
   * is the last interaction.
   */
  lemma EmptySelectionIsNoOp(g: Globals, listing: GitRun, force: ConfirmAnswer, safeFailing: set<nat>, forceFailing: set<nat>)
    requires Listed(listing) != []
    ensures var o := MainOutcome(g, listing, Submitted([], true), force, safeFailing, forceFailing);
      o.exit == Done && o.steps == [ListBranches, AskSelection(Listed(listing))]
  {
    assert Attempted([], safeFailing) == [];
    assert DeleteSteps(false, []) == [];
  }

  /** After a confirmed form, `main` is the listing, the form, then `runDeletion`. */
  lemma ConfirmedMainOutcome(g: Globals, listing: GitRun, form: FormAnswer, force: ConfirmAnswer,
                             safeFailing: set<nat>, forceFailing: set<nat>)
    requires ConfirmedDeletion(listing, form)
    ensures var d := RunDeletionOutcome(Globals(form.selection, true), force, safeFailing, forceFailing);
      MainOutcome(g, listing, form, force, safeFailing, forceFailing)
        == Outcome(d.globals, [ListBranches, AskSelection(Listed(listing))] + d.steps, d.exit)
  {
    MainOutcomeListed(g, listing, form, force, safeFailing, forceFailing, Listed(listing));
    AfterListingConfirmed(g, Listed(listing), form.selection, force, safeFailing, forceFailing);
  }

  /**
   * The user picks `wip` out of the two branches offered, its safe
   * delete fails and the user declines to force: the program ends normally
   * and `wip` is never force-deleted.
   */
  lemma DeclinedForceKeepsBranch(g: Globals, listing: GitRun, safeFailing: set<nat>, forceFailing: set<nat>)
    requires Listed(listing) == ["  dev", "  wip"]
    requires 0 in safeFailing
    ensures var o := MainOutcome(g, listing, Submitted(["  wip"], true), Answered(false), safeFailing, forceFailing);
      && o.exit == Done
      && o.steps == [ListBranches, AskSelection(["  dev", "  wip"]),
                     SafeDelete("  wip"), AskForce]
  {
    var sel := ["  wip"];
    var d := RunDeletionOutcome(Globals(sel, true), Answered(false), safeFailing, forceFailing);
    assert d.steps == [SafeDelete("  wip"), AskForce] && d.exit == Done by {
      assert FirstFailure(1, safeFailing) == 0;
      assert Attempted(sel, safeFailing) == sel;
      assert DeleteSteps(false, sel) == [SafeDelete("  wip")];
    }
    ConfirmedMainOutcome(g, listing, Submitted(sel, true), Answered(false), safeFailing, forceFailing);
  }

  /** The same run, starting from what `git branch` prints with `main` checked out. */
  lemma DeclinedForceOnTypicalListing(g: Globals, listing: GitRun, safeFailing: set<nat>, forceFailing: set<nat>)
    requires listing == Ran("* main\n  dev\n  wip\n")
    requires 0 in safeFailing
    ensures MainOutcome(g, listing, Submitted(["  wip"], true), Answered(false), safeFailing, forceFailing).exit == Done
  {
    assert Listed(listing) == ["  dev", "  wip"] by {
      ParseTypicalListing();
    }
    DeclinedForceKeepsBranch(g, listing, safeFailing, forceFailing);
  }
}
