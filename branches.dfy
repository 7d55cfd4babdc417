/**
 * The branch lister (`getBranches` in main.go): run `git branch`, split its
 * standard output into lines and keep every line that is neither empty nor
 * the current branch (marked with a leading `*`). Lines are kept exactly as
 * git printed them: nothing is trimmed, so git's two-space indent stays part
 * of each name.
 */
module Branches {

  import opened Wrappers
  import opened Text

  /** What running `git branch` gave: its standard output, or the error of `cmd.Run`. */
  datatype GitRun = Ran(stdout: string) | RunFailed(message: string)

  /** Why the lister returns no branches. */
  datatype ListError =
    | GitFailed(message: string)  // `git branch` could not be run or exited non-zero
    | NoBranches                  // "there are no branches I could delete here"

  /** The line that marks the checked-out branch. */
  predicate IsCurrentBranchLine(line: string): (marked: bool)
    ensures marked <==> |line| > 0 && line[0] == '*'
  {
    HasPrefix(line, "*")
  }

  /** A line of `git branch` output that is offered for deletion. */
  predicate Deletable(line: string): (offered: bool)
    ensures offered <==> line != "" && line[0] != '*'
  {
    !(line == "" || IsCurrentBranchLine(line))
  }

  /** The deletable lines of `lines`, in their order, unchanged. */
  function Candidates(lines: seq<string>): (kept: seq<string>)
    ensures |kept| <= |lines|
    ensures forall i :: 0 <= i < |kept| ==> Deletable(kept[i])
  {
    if lines == [] then []
    else if Deletable(lines[0]) then [lines[0]] + Candidates(lines[1..])
    else Candidates(lines[1..])
  }

  /** The branches `git branch` offered for deletion (none when it could not be run). */
  function Listed(listing: GitRun): (offered: seq<string>)
    ensures listing.RunFailed? ==> offered == []
    ensures forall i :: 0 <= i < |offered| ==> Deletable(offered[i])
  {
    if listing.Ran? then Candidates(Split(listing.stdout, '\n')) else []
  }

  /** A line is kept exactly when it is one of the input lines and qualifies. */
  lemma {:induction false} CandidatesMembers(lines: seq<string>, line: string)
    ensures line in Candidates(lines) <==> line in lines && Deletable(line)
  {
    if lines != [] {
      CandidatesMembers(lines[1..], line);
      assert lines == [lines[0]] + lines[1..];
    }
  }

  /** Filtering distributes over concatenation, so the order of the lines is kept. */
  lemma {:induction false} CandidatesAppend(a: seq<string>, b: seq<string>)
    ensures Candidates(a + b) == Candidates(a) + Candidates(b)
  {
    if a != [] {
      assert (a + b)[0] == a[0];
      assert (a + b)[1..] == a[1..] + b;
      CandidatesAppend(a[1..], b);
    } else {
      assert a + b == b;
    }
  }

  /** Lines that all qualify are returned unchanged: no line is trimmed or rewritten. */
  lemma {:induction false} CandidatesKeepsDeletable(lines: seq<string>)
    requires forall i :: 0 <= i < |lines| ==> Deletable(lines[i])
    ensures Candidates(lines) == lines
  {
    if lines != [] {
      CandidatesKeepsDeletable(lines[1..]);
    }
  }

  /** Nothing is left exactly when no line qualifies. */
  lemma {:induction false} CandidatesEmpty(lines: seq<string>)
    ensures Candidates(lines) == [] <==> forall i :: 0 <= i < |lines| ==> !Deletable(lines[i])
  {
    if Candidates(lines) == [] {
      forall i | 0 <= i < |lines|
        ensures !Deletable(lines[i])
      {
        CandidatesMembers(lines, lines[i]);
      }
    } else {
      var line := Candidates(lines)[0];
      CandidatesMembers(lines, line);
    }
  }

  /**
   * `getBranches`: the deletable lines of the listing, or an error when git
   * failed or no line qualifies. On error the branch list is empty.
   */
  method GetBranches(listing: GitRun) returns (branches: seq<string>, err: Option<ListError>)
    ensures listing.RunFailed? ==> branches == [] && err == Some(GitFailed(listing.message))
    ensures listing.Ran? ==>
      var lines := Split(listing.stdout, '\n');
      if Candidates(lines) == [] then branches == [] && err == Some(NoBranches)
      else branches == Candidates(lines) && err == None
    ensures err == None <==> branches != []
    ensures forall i :: 0 <= i < |branches| ==> branches[i] != "" && branches[i][0] != '*'
  {
    if listing.RunFailed? {
      return [], Some(GitFailed(listing.message));
    }
    var result := Split(listing.stdout, '\n');
    branches := [];
    for i := 0 to |result|
      invariant branches == Candidates(result[..i])
    {
      var item := result[i];
      assert result[..i + 1] == result[..i] + [item];
      CandidatesAppend(result[..i], [item]);
      if item == "" || HasPrefix(item, "*") {
        continue;
      }
      branches := branches + [item];
    }
    assert result[..|result|] == result;
    if |branches| == 0 {
      return [], Some(NoBranches);
    }
    return branches, None;
  }

  /**
   * What `git branch` prints is one line per branch, each ended by a newline.
   * Parsing such output gives back exactly the deletable lines that were
   * printed, in order.
   */
  lemma ParseListing(lines: seq<string>)
    requires forall i :: 0 <= i < |lines| ==> '\n' !in lines[i]
    ensures Candidates(Split(Join(lines + [""], '\n'), '\n')) == Candidates(lines)
  {
    SplitJoin(lines + [""], '\n');
    CandidatesAppend(lines, [""]);
  }

  /** The typical listing is its four lines joined by newlines, the last one empty. */
  lemma TypicalListingLines()
    ensures Join(["* main", "  dev", "  wip", ""], '\n') == "* main\n  dev\n  wip\n"
  {
    var all := ["* main", "  dev", "  wip", ""];
    assert Join(all[1..], '\n') == "  dev\n  wip\n" by {
      assert Join(all[1..][1..], '\n') == "  wip\n" by {
        assert all[1..][1..][1..] == [""];
      }
    }
  }

  /**
   * A listing with the current branch first and two other branches: the two
   * others are offered, each with git's two-space indent still in front.
   */
  lemma ParseTypicalListing()
    ensures Candidates(Split("* main\n  dev\n  wip\n", '\n')) == ["  dev", "  wip"]
  {
    var lines := ["* main", "  dev", "  wip"];
    assert Candidates(Split(Join(lines + [""], '\n'), '\n')) == Candidates(lines) by {
      ParseListing(lines);
    }
    assert Join(lines + [""], '\n') == "* main\n  dev\n  wip\n" by {
      TypicalListingLines();
      assert lines + [""] == ["* main", "  dev", "  wip", ""];
    }
    assert Candidates(lines) == ["  dev", "  wip"] by {
      assert !Deletable(lines[0]);
      CandidatesKeepsDeletable(lines[1..]);
    }
  }
}
