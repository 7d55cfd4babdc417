/**
 * The two deletion walks of main.go: `deleteBranches` runs `git branch -d`
 * and `forceDeleteBranches` runs `git branch -D` on each selected branch in
 * order, and both stop at the first call that fails.
 *
 * The outcome of each git call is an oracle: `failing` holds the numbers of
 * the calls of a walk (counting from 0) that exit with a non-zero status. The
 * call made for `branches[i]` is always call number i, since a walk never
 * skips a branch.
 */
module Deletion {

  /**
   * The index of the first failing call in a walk over `n` branches, or `n`
   * when every call succeeds.
   */
  function FirstFailure(n: nat, failing: set<nat>): (k: nat)
    ensures k <= n
    ensures forall i :: 0 <= i < k ==> i !in failing
    ensures k < n ==> k in failing
  {
    if n == 0 then 0
    else
      var k := FirstFailure(n - 1, failing);
      if k < n - 1 || (n - 1) in failing then k else n
  }

  /** Whether some call of the walk over `branches` fails. */
  predicate WalkFails(branches: seq<string>, failing: set<nat>) {
    FirstFailure(|branches|, failing) < |branches|
  }

  /** The branches the walk deleted: those before the first failure. */
  function Deleted(branches: seq<string>, failing: set<nat>): (done: seq<string>)
    ensures |done| <= |branches| && done == branches[..|done|]
    ensures forall i :: 0 <= i < |done| ==> i !in failing
    ensures |done| < |branches| ==> |done| in failing
  {
    branches[..FirstFailure(|branches|, failing)]
  }

  /**
   * What `deleteBranches` hands back: the branches from the failing one to the
   * end, or nothing when every call succeeds.
   */
  function Remainder(branches: seq<string>, failing: set<nat>): (rest: seq<string>)
    ensures |rest| <= |branches| && rest == branches[|branches| - |rest|..]
    ensures rest == [] <==> forall i :: 0 <= i < |branches| ==> i !in failing
    ensures rest != [] ==> (|branches| - |rest|) in failing
  {
    branches[FirstFailure(|branches|, failing)..]
  }

  /** Every branch is either deleted or handed back, and the two parts keep the selection order. */
  lemma DeletedThenRemainder(branches: seq<string>, failing: set<nat>)
    ensures Deleted(branches, failing) + Remainder(branches, failing) == branches
  {
  }

  /**
   * The branches git is called for, in call order: every deleted one and,
   * when the walk fails, the failing one; nothing after it.
   */
  function Attempted(branches: seq<string>, failing: set<nat>): (calls: seq<string>)
    ensures |calls| <= |branches| && calls == branches[..|calls|]
    ensures !WalkFails(branches, failing) ==> calls == branches
    ensures WalkFails(branches, failing) ==>
      |calls| >= 1 && (|calls| - 1) in failing && forall i :: 0 <= i < |calls| - 1 ==> i !in failing
  {
    var k := FirstFailure(|branches|, failing);
    if k < |branches| then branches[..k + 1] else branches
  }

  /** A failing walk calls git for the deleted branches and then for the first one handed back. */
  lemma AttemptedOnFailure(branches: seq<string>, failing: set<nat>)
    requires WalkFails(branches, failing)
    ensures Remainder(branches, failing) != []
    ensures Attempted(branches, failing) == Deleted(branches, failing) + [Remainder(branches, failing)[0]]
  {
  }

  /**
   * `deleteBranches`: `git branch -d` on each branch in order. On the first
   * failure it stops and returns the failing branch and every later one; when
   * all succeed it returns no branches. `attempted` lists the git calls made.
   */
  method DeleteBranches(branches: seq<string>, failing: set<nat>)
    returns (remaining: seq<string>, failed: bool, attempted: seq<string>)
    ensures failed == WalkFails(branches, failing)
    ensures remaining == Remainder(branches, failing)
    ensures attempted == Attempted(branches, failing)
  {
    attempted := [];
    for idx := 0 to |branches|
      invariant attempted == branches[..idx]
      invariant forall j :: 0 <= j < idx ==> j !in failing
    {
      attempted := attempted + [branches[idx]];
      if idx in failing {
        return branches[idx..], true, attempted;
      }
    }
    return [], false, attempted;
  }

  /**
   * `forceDeleteBranches`: `git branch -D` on each branch in order, stopping
   * at the first failure, which is reported.
   */
  method ForceDeleteBranches(branches: seq<string>, failing: set<nat>)
    returns (failed: bool, attempted: seq<string>)
    ensures failed == WalkFails(branches, failing)
    ensures attempted == Attempted(branches, failing)
  {
    attempted := [];
    for idx := 0 to |branches|
      invariant attempted == branches[..idx]
      invariant forall j :: 0 <= j < idx ==> j !in failing
    {
      attempted := attempted + [branches[idx]];
      if idx in failing {
        return true, attempted;
      }
    }
    return false, attempted;
  }

  /**
   * A safe walk followed by a force walk over what it left: when the force
   * walk succeeds, every branch of the selection was deleted by exactly one
   * of the two walks, in selection order.
   */
  lemma SafeThenForceDeletesAll(branches: seq<string>, safeFailing: set<nat>, forceFailing: set<nat>)
    requires !WalkFails(Remainder(branches, safeFailing), forceFailing)
    ensures Deleted(branches, safeFailing) + Deleted(Remainder(branches, safeFailing), forceFailing) == branches
  {
    var rest := Remainder(branches, safeFailing);
    DeletedThenRemainder(branches, safeFailing);
    assert Deleted(rest, forceFailing) == rest[..|rest|] == rest;
  }
}
