/**
 Moving a branch together with its checkout (internal/git/aggregate.go:175-371, 391-497).

 A repository checkout is a branch ref, HEAD, the index, the working files and what is untracked or ignored. Other
 processes may change any of it between any two Git calls, and every call may fail; a ref update may even take
 effect and be reported as failed, and an interrupted merge may leave any files behind. A trace keeps what
 this protocol itself did.
*/
module GitBranch {
  import opened Options

  type Commit = string
  type Path = string
  type Blob = string
  type Tree = map<Path, Blob>

  // ----- two-tree merge

  predicate SameAt(left: Tree, right: Tree, p: Path) {
    (p in left <==> p in right) && (p in left ==> left[p] == right[p])
  }

  /** The merge of `read-tree -m -u from to`: paths on which both commits agree keep their local content. */
  function MergeTrees(current: Tree, from: Tree, to: Tree): Tree {
    map p | p in current.Keys + to.Keys && (if SameAt(from, to, p) then p in current else p in to) ::
      if SameAt(from, to, p) then current[p] else to[p]
  }

  /** The merge is refused unless every path it must change still has the source content. */
  predicate Mergeable(current: Tree, from: Tree, to: Tree) {
    forall p | p in current.Keys + from.Keys + to.Keys :: SameAt(from, to, p) || SameAt(current, from, p)
  }

  /** On an untouched source the merge yields the target. */
  lemma MergeOfSource(from: Tree, to: Tree)
    ensures Mergeable(from, from, to) && MergeTrees(from, from, to) == to
  {
    var merged := MergeTrees(from, from, to);
    assert merged.Keys == to.Keys;
  }

  /** Merging forward and back restores the tree, local changes included. */
  lemma MergeRoundTrip(current: Tree, from: Tree, to: Tree)
    requires Mergeable(current, from, to)
    ensures Mergeable(MergeTrees(current, from, to), to, from)
    ensures MergeTrees(MergeTrees(current, from, to), to, from) == current
  {
    var there := MergeTrees(current, from, to);
    forall p
      ensures SameAt(from, to, p) ==> SameAt(there, current, p)
      ensures !SameAt(from, to, p) ==> SameAt(there, to, p)
    {
    }
    assert forall p | p in from.Keys && p !in to.Keys :: p in current.Keys + from.Keys + to.Keys;
    var back := MergeTrees(there, to, from);
    forall p
      ensures SameAt(back, current, p)
    {
      if p !in current.Keys + from.Keys + to.Keys {
        assert p !in there && p !in back;
      }
    }
    assert back.Keys == current.Keys by {
      forall p
        ensures p in back <==> p in current
      {
        assert SameAt(back, current, p);
      }
    }
    forall p | p in current
      ensures back[p] == current[p]
    {
      assert SameAt(back, current, p);
    }
  }

  // ----- colliding paths

  function LowerChar(c: char): char {
    if 'A' <= c <= 'Z' then (c as int + 32) as char else c
  }

  predicate EqualFold(left: string, right: string) {
    |left| == |right| && forall i | 0 <= i < |left| :: LowerChar(left[i]) == LowerChar(right[i])
  }

  predicate PathPrefix(prefix: Path, path: Path) {
    && |prefix| <= |path|
    && EqualFold(prefix, path[..|prefix|])
    && (|prefix| == |path| || path[|prefix|] == '/')
  }

  predicate OverlappingPath(left: Path, right: Path) {
    PathPrefix(left, right) || PathPrefix(right, left)
  }

  predicate Collides(ignored: Tree, target: Tree) {
    exists i, t | i in ignored && t in target :: OverlappingPath(i, t)
  }

  // ----- the trace

  /** A ref update that took effect; acknowledged tells whether Git also reported success. */
  datatype Move = Move(from: Commit, to: Commit, acknowledged: bool)

  /**
   What the protocol did: the ref updates that took effect, the value of the ref that each of them replaced, how often
   it let Git write files, and the commit the checkout was last seen equal to, if it was seen after the last write.
  */
  datatype Trace = Trace(moves: seq<Move>, replaced: seq<Option<Commit>>, writes: nat, seen: Option<Commit>)

  /** The values that the moves name as the ones to replace. */
  function Sources(moves: seq<Move>): (sources: seq<Option<Commit>>)
    ensures |sources| == |moves| && forall i | 0 <= i < |moves| :: sources[i] == Some(moves[i].from)
  {
    seq(|moves|, i requires 0 <= i < |moves| => Some(moves[i].from))
  }

  /** The trace goes on by moves that each replaced exactly the value they name. */
  function Onward(trace: Trace, moves: seq<Move>): Trace {
    trace.(moves := trace.moves + moves, replaced := trace.replaced + Sources(moves))
  }

  predicate MovedBy(before: Trace, after: Trace, moves: seq<Move>) {
    after.moves == before.moves + moves && after.replaced == before.replaced + Sources(moves)
  }

  lemma MovedOnward(t0: Trace, t1: Trace, t2: Trace, first: seq<Move>, more: seq<Move>)
    requires MovedBy(t0, t1, first) && MovedBy(t1, t2, more)
    ensures MovedBy(t0, t2, first + more)
  {
    assert Sources(first + more) == Sources(first) + Sources(more);
  }

  datatype Receipt = Receipt(from: Commit, to: Commit)

  /** The moves one transition may have made: none, one forward, or one forward and one back. */
  predicate TransitionMoves(moves: seq<Move>, from: Commit, to: Commit) {
    || moves == []
    || (|moves| == 1 && moves[0].from == from && moves[0].to == to)
    || (|moves| == 2 && moves[0] == Move(from, to, true) && moves[1].from == to && moves[1].to == from)
  }

  /**
   What a transition may have done. On success the ref moved once, acknowledged, files were written once and then
   seen equal to the target. On failure nothing was written unless the ref had moved first, and the ref was moved
   back only after the checkout had been seen equal to the source again, with nothing written since.
  */
  predicate Transitioned(ok: bool, before: Trace, after: Trace, moves: seq<Move>, from: Commit, to: Commit) {
    && MovedBy(before, after, moves)
    && TransitionMoves(moves, from, to)
    && before.writes <= after.writes <= before.writes + 1
    && (ok ==> moves == [Move(from, to, true)] && after.writes == before.writes + 1 && after.seen == Some(to))
    && (!ok ==> (moves == [] ==> after.writes == before.writes) && (|moves| == 2 ==> after.seen == Some(from)))
  }

  /** Where the ref stands after a transition, if nobody else writes it. */
  predicate RefFollows(before: Option<Commit>, after: Option<Commit>, moves: seq<Move>, from: Commit, to: Commit) {
    if moves == [] then after == before
    else before == Some(from) && after == Some(if |moves| == 1 then to else from)
  }

  /** Everything of a checkout besides the branch ref. */
  datatype Work = Work(attached: bool, detachedHead: Option<Commit>, checkedOutElsewhere: bool,
                       index: Tree, files: Tree, untracked: set<Path>, ignored: Tree)

  /** How the rest of the world behaves: see the fields of a checkout. */
  datatype Environment = Environment(exclusive: bool, quiet: bool, failing: bool, lying: bool, spoiler: Option<Commit>)

  class Checkout {
    /** Nobody else writes the branch ref. */
    const exclusive: bool
    /** Nobody else does anything at all. */
    const quiet: bool
    /** Calls may fail that could succeed. */
    const failing: bool
    /** A ref update that takes effect is reported as failed. */
    const lying: bool
    /** Somebody who waits until this protocol has written files and then keeps setting the branch to this commit. */
    const spoiler: Option<Commit>
    const snapshot: Commit -> Tree
    const isAncestor: (Commit, Commit) -> bool

    var ref: Option<Commit>
    var work: Work
    var trace: Trace

    constructor (environment: Environment, snapshot: Commit -> Tree, isAncestor: (Commit, Commit) -> bool,
                 ref: Option<Commit>, work: Work)
      ensures Environment(exclusive, quiet, failing, lying, spoiler) == environment
      ensures this.snapshot == snapshot && this.isAncestor == isAncestor
      ensures this.ref == ref && this.work == work && trace == Trace([], [], 0, None)
    {
      exclusive, quiet, failing := environment.exclusive, environment.quiet, environment.failing;
      lying, spoiler := environment.lying, environment.spoiler;
      this.snapshot, this.isAncestor := snapshot, isAncestor;
      this.ref, this.work, trace := ref, work, Trace([], [], 0, None);
    }

    /** Index and working files are exactly the commit, and nothing untracked is lying around. */
    predicate Clean(w: Work, commit: Commit) {
      w.index == snapshot(commit) && w.files == snapshot(commit) && w.untracked == {}
    }

    /** Nobody else acts, and no call fails that could succeed. */
    predicate Smooth() {
      quiet && !failing && !lying
    }

    /** Nobody else acts and no call fails, but ref updates are reported as failed. */
    predicate Lied() {
      quiet && !failing && lying
    }

    /** Only the spoiler acts, and no call fails that could succeed. */
    predicate Spoiled() {
      spoiler.Some? && !quiet && !exclusive && !failing && !lying
    }

    /** Nothing disturbs the protocol: for good, or until it has written files. */
    predicate Calm()
      reads this`trace
    {
      Smooth() || (Spoiled() && trace.writes == 0)
    }

    /** The branch is checked out at a commit, untouched, and nothing ignored is in the way of another commit. */
    ghost predicate Movable(from: Commit, to: Commit)
      reads this`ref, this`work
    {
      work.attached && ref == Some(from) && Clean(work, from) && !Collides(work.ignored, snapshot(to))
    }

    /** The ref is where the spoiler put it, but index and files are the target's, and were not looked at since. */
    ghost predicate LeftBehind(before: Work, to: Commit)
      reads this`ref, this`work, this`trace
    {
      ref == spoiler && work == before.(index := snapshot(to), files := snapshot(to)) &&
      trace.writes == 1 && trace.seen == None
    }

    // ----- environment and single Git calls

    /** The outcome of a call: anything, unless calls do not fail. */
    method Outcome() returns (ok: bool)
      ensures !failing ==> ok
    {
      ok := *;
      ok := ok || !failing;
    }

    /** Other processes act, unless the repository is quiet; on an exclusive branch they leave the ref alone. */
    method Interfere()
      modifies this`ref, this`work
      ensures exclusive || quiet ==> ref == old(ref)
      ensures quiet ==> work == old(work)
      ensures Calm() ==> ref == old(ref) && work == old(work)
      ensures Spoiled() && trace.writes > 0 ==> ref == spoiler && work == old(work)
    {
      if quiet {
      } else if spoiler.Some? && !exclusive {
        if trace.writes > 0 {
          ref := spoiler;
        }
      } else {
        if !exclusive {
          ref := *;
        }
        work := *;
      }
    }

    /** HEAD is attached to the branch, and then resolves to the expected commit. */
    method AssertAttachedBranchHead(expected: Commit) returns (ok: bool)
      modifies this`ref, this`work
      ensures exclusive || quiet ==> ref == old(ref)
      ensures quiet ==> work == old(work)
      ensures quiet && ok ==> work.attached && ref == Some(expected)
      ensures Calm() ==> ref == old(ref) && work == old(work)
      ensures Calm() && work.attached && ref == Some(expected) ==> ok
      ensures Spoiled() && trace.writes > 0 ==>
                ref == spoiler && work == old(work) && (ok ==> spoiler == Some(expected))
    {
      Interfere();
      ok := Outcome();
      if !ok || !work.attached {
        return false;
      }
      Interfere();
      ok := Outcome();
      ok := ok && (if work.attached then ref else work.detachedHead) == Some(expected);
    }

    /** The three comparisons of the checkout with a commit, each at its own time. None stands for a failed call. */
    method WorktreeMatchesCommit(commit: Commit) returns (matches: Option<bool>)
      modifies this`ref, this`work, this`trace
      ensures exclusive || quiet ==> ref == old(ref)
      ensures quiet ==> work == old(work)
      ensures trace == if matches == Some(true) then old(trace).(seen := Some(commit)) else old(trace)
      ensures quiet && matches == Some(true) ==> Clean(work, commit)
      ensures quiet && matches.Some? ==>
        (matches.value <==> work.index == work.files == snapshot(commit) && work.untracked == {})
      ensures old(Calm()) ==> ref == old(ref) && work == old(work)
      ensures old(Calm()) && Clean(work, commit) ==> matches == Some(true)
    {
      Interfere();
      var ok := Outcome();
      if !ok {
        return None;
      }
      if work.index != snapshot(commit) || work.files != snapshot(commit) {
        return Some(false);
      }
      Interfere();
      ok := Outcome();
      if !ok {
        return None;
      }
      if work.files != work.index {
        return Some(false);
      }
      Interfere();
      ok := Outcome();
      if !ok {
        return None;
      }
      if work.untracked != {} {
        return Some(false);
      }
      trace := trace.(seen := Some(commit));
      return Some(true);
    }

    method AssertIgnoredPathsDoNotCollide(target: Commit) returns (ok: bool)
      modifies this`ref, this`work
      ensures exclusive || quiet ==> ref == old(ref)
      ensures quiet ==> work == old(work)
      ensures (quiet || Calm()) && ok ==> !Collides(work.ignored, snapshot(target))
      ensures Calm() ==> ref == old(ref) && work == old(work)
      ensures Calm() && !Collides(work.ignored, snapshot(target)) ==> ok
    {
      Interfere();
      ok := Outcome();
      if ok && work.ignored != map[] {
        var ignored := work.ignored;
        Interfere();
        ok := Outcome();
        ok := ok && !Collides(ignored, snapshot(target));
      } else if ok {
        assert !Collides(work.ignored, snapshot(target));
      }
    }

    /** `update-ref`: an exact compare-and-swap, which may also report failure after it took effect. */
    method UpdateBranchRef(next: Commit, expected: Commit) returns (ok: bool, ghost moved: bool)
      modifies this`ref, this`work, this`trace
      ensures ok ==> moved
      ensures trace == if moved then Onward(old(trace), [Move(expected, next, ok)]) else old(trace)
      ensures exclusive || quiet ==> if moved then old(ref) == Some(expected) && ref == Some(next) else ref == old(ref)
      ensures quiet ==> work == old(work)
      ensures old(Calm()) ==> ok == moved == (old(ref) == Some(expected))
      ensures old(Calm()) ==> ref == (if moved then Some(next) else old(ref)) && work == old(work)
      ensures Lied() ==> !ok && moved == (old(ref) == Some(expected))
    {
      Interfere();
      moved := false;
      ok := Outcome();
      ok := ok && !lying;
      var effect := Outcome();
      if effect && ref == Some(expected) {
        trace := trace.(moves := trace.moves + [Move(expected, next, ok)], replaced := trace.replaced + [ref]);
        ref, moved := Some(next), true;
        assert [Some(expected)] == Sources([Move(expected, next, ok)]);
      } else {
        ok := false;
      }
    }

    /**
     `read-tree -m -u`: the two-tree merge, allowed only when the checkout was last seen equal to the source. A
     failed merge did nothing, or stopped anywhere in between. Ignored files in its way may be overwritten.
    */
    method ReadTree(from: Commit, to: Commit) returns (ok: bool)
      requires trace.seen == Some(from)
      requires quiet || Calm() ==> !Collides(work.ignored, snapshot(to))
      modifies this`ref, this`work, this`trace
      ensures exclusive || quiet ==> ref == old(ref)
      ensures trace == old(trace) || trace == old(trace).(writes := old(trace).writes + 1, seen := None)
      ensures ok ==> trace.writes == old(trace).writes + 1
      ensures quiet ==> work == old(work).(index := work.index, files := work.files, untracked := work.untracked)
      ensures quiet && trace.writes == old(trace).writes ==> work == old(work)
      ensures quiet && ok && Clean(old(work), from) ==>
        work == old(work).(index := snapshot(to), files := snapshot(to))
      ensures old(Calm()) ==> ref == old(ref)
      ensures old(Calm()) && Clean(old(work), from) ==>
        ok && trace.seen == None && work == old(work).(index := snapshot(to), files := snapshot(to))
    {
      Interfere();
      ok := Outcome();
      var source, target := snapshot(from), snapshot(to);
      if Collides(work.ignored, target) {
        var ignored: Tree := *;
        work := work.(ignored := ignored);
      }
      if Mergeable(work.index, source, target) && Mergeable(work.files, source, target) &&
         work.untracked !! (target.Keys - source.Keys) {
        if ok {
          MergeOfSource(source, target);
          work := work.(index := MergeTrees(work.index, source, target),
                        files := MergeTrees(work.files, source, target));
          trace := trace.(writes := trace.writes + 1, seen := None);
        } else {
          var started: bool := *;
          if started {
            var index, files: Tree, untracked: set<Path> := *, *, *;
            work := work.(index := index, files := files, untracked := untracked);
            trace := trace.(writes := trace.writes + 1, seen := None);
          }
        }
      } else {
        ok := false;
      }
    }

    // ----- the protocol

    method AssertOwnedBranchGeneration(expected: Commit) returns (ok: bool)
      modifies this`ref, this`work, this`trace
      ensures exclusive || quiet ==> ref == old(ref)
      ensures quiet ==> work == old(work)
      ensures trace == old(trace) || trace == old(trace).(seen := Some(expected))
      ensures ok ==> trace.seen == Some(expected)
      ensures quiet && ok ==> work.attached && ref == Some(expected) && Clean(work, expected)
      ensures old(Calm()) ==> ref == old(ref) && work == old(work)
      ensures old(Calm()) && work.attached && ref == Some(expected) && Clean(work, expected) ==> ok
      ensures Spoiled() && old(trace).writes > 0 && spoiler != Some(expected) ==>
        !ok && ref == spoiler && work == old(work) && trace == old(trace)
    {
      ok := AssertAttachedBranchHead(expected);
      if ok {
        var matches := WorktreeMatchesCommit(expected);
        ok := matches == Some(true);
      }
    }

    method MaterializeAttachedWorktree(from: Commit, to: Commit) returns (ok: bool)
      modifies this`ref, this`work, this`trace
      ensures exclusive || quiet ==> ref == old(ref)
      ensures trace.moves == old(trace).moves && trace.replaced == old(trace).replaced
      ensures old(trace).writes <= trace.writes <= old(trace).writes + 1
      ensures ok ==> trace.writes == old(trace).writes + 1
      ensures quiet && trace.writes == old(trace).writes ==> work == old(work)
      ensures quiet && trace.writes != old(trace).writes ==>
        && Clean(old(work), from)
        && work == old(work).(index := work.index, files := work.files, untracked := work.untracked)
      ensures quiet && ok ==> work == old(work).(index := snapshot(to), files := snapshot(to))
      ensures old(Calm()) ==> ref == old(ref)
      ensures old(Calm()) && Clean(old(work), from) && !Collides(old(work).ignored, snapshot(to)) ==>
        ok && trace.seen == None && work == old(work).(index := snapshot(to), files := snapshot(to))
    {
      var matches := WorktreeMatchesCommit(from);
      if matches != Some(true) {
        return false;
      }
      var free := AssertIgnoredPathsDoNotCollide(to);
      if !free {
        return false;
      }
      ok := ReadTree(from, to);
    }

    /** The ref is moved back only while HEAD names the new commit and the checkout is seen equal to the source. */
    method CleanupFailedTransition(from: Commit, to: Commit) returns (ghost back: seq<Move>)
      modifies this`ref, this`work, this`trace
      ensures exclusive || quiet ==>
        if back == [] then ref == old(ref) else old(ref) == Some(to) && ref == Some(from)
      ensures quiet ==> work == old(work)
      ensures MovedBy(old(trace), trace, back) && trace.writes == old(trace).writes
      ensures |back| <= 1 && (back != [] ==> back[0].from == to && back[0].to == from && trace.seen == Some(from))
      ensures quiet && back != [] ==> Clean(work, from)
      ensures Smooth() && old(work).attached && old(ref) == Some(to) && Clean(old(work), from) ==> back != []
    {
      back := [];
      var attached := AssertAttachedBranchHead(to);
      if !attached {
        return;
      }
      var matches := WorktreeMatchesCommit(from);
      if matches != Some(true) {
        return;
      }
      var ok, moved := UpdateBranchRef(from, to);
      back := if moved then [Move(to, from, ok)] else [];
    }

    method TransitionAttachedBranch(from: Commit, to: Commit) returns (ok: bool, ghost moves: seq<Move>)
      modifies this`ref, this`work, this`trace
      ensures Transitioned(ok, old(trace), trace, moves, from, to)
      ensures exclusive || quiet ==> RefFollows(old(ref), ref, moves, from, to)
      ensures quiet && ok ==>
        Clean(old(work), from) && work == old(work).(index := snapshot(to), files := snapshot(to))
      ensures quiet && !ok && |moves| != 1 ==> work == old(work)
      ensures Smooth() && old(work).attached && Clean(old(work), from) ==> (ok <==> old(Movable(from, to)))
      ensures Smooth() && old(work).attached && Clean(old(work), from) && !ok ==> ref == old(ref) && work == old(work)
      ensures Spoiled() && old(trace).writes == 0 && old(Movable(from, to)) && spoiler == Some(from) && from != to ==>
        !ok && LeftBehind(old(work), to)
    {
      var updated;
      ghost var moved;
      updated, moved := UpdateBranchRef(to, from);
      moves := if moved then [Move(from, to, updated)] else [];
      if !updated {
        return false, moves;
      }
      ok := AssertAttachedBranchHead(to);
      if ok {
        var matches := WorktreeMatchesCommit(from);
        ok := matches == Some(true);
      }
      if ok {
        ok := AssertIgnoredPathsDoNotCollide(to);
      }
      if ok {
        ok := MaterializeAttachedWorktree(from, to);
      }
      if !ok {
        ghost var there := trace;
        ghost var back := CleanupFailedTransition(from, to);
        MovedOnward(old(trace), there, trace, moves, back);
        moves := moves + back;
        return;
      }
      ok := AssertOwnedBranchGeneration(to);
    }

    /** Advancing the attached clean branch. */
    method FastForward(from: Commit, to: Commit) returns (receipt: Option<Receipt>, ghost moves: seq<Move>)
      modifies this`ref, this`work, this`trace
      ensures receipt.Some? ==> receipt.value == Receipt(from, to) && from != to && isAncestor(from, to)
      ensures Transitioned(receipt.Some?, old(trace), trace, moves, from, to)
      ensures moves != [] ==> from != to && isAncestor(from, to)
      ensures exclusive || quiet ==> RefFollows(old(ref), ref, moves, from, to)
      ensures (exclusive || quiet) && receipt.None? && ref == Some(from) ==>
        trace.writes == old(trace).writes || trace.seen == Some(from)
      ensures quiet && receipt.Some? ==>
        old(work).attached && Clean(old(work), from) && work == old(work).(index := snapshot(to), files := snapshot(to))
      ensures quiet && receipt.Some? ==>
        old(work).index == old(work).files == snapshot(from) && old(work).untracked == {}
      ensures quiet && receipt.None? && |moves| != 1 ==> work == old(work)
      ensures Smooth() ==> (receipt.Some? <==> from != to && isAncestor(from, to) && old(Movable(from, to)))
      ensures Smooth() && receipt.None? ==> ref == old(ref) && work == old(work)
      ensures Spoiled() && old(trace).writes == 0 && old(Movable(from, to)) && spoiler == Some(from) && from != to &&
              isAncestor(from, to) ==>
        receipt.None? && LeftBehind(old(work), to)
    {
      moves := [];
      if from == to {
        return None, moves;
      }
      var owned := AssertOwnedBranchGeneration(from);
      if !owned {
        return None, moves;
      }
      Interfere();
      var ancestor := Outcome();
      if !ancestor || !isAncestor(from, to) {
        return None, moves;
      }
      var ok;
      ok, moves := TransitionAttachedBranch(from, to);
      if (exclusive || quiet) && !ok && ref == Some(from) {
        FailureAtSourceIsHarmless(old(trace), trace, moves, from, to, old(ref), ref);
      }
      receipt := if ok then Some(Receipt(from, to)) else None;
    }

    /** Undoing a recorded fast-forward, while the branch, HEAD and checkout still are its result. */
    method RestoreFastForward(receipt: Receipt) returns (ok: bool, ghost moves: seq<Move>)
      modifies this`ref, this`work, this`trace
      ensures Transitioned(ok, old(trace), trace, moves, receipt.to, receipt.from)
      ensures exclusive || quiet ==> RefFollows(old(ref), ref, moves, receipt.to, receipt.from)
      ensures quiet && ok ==>
        && Clean(old(work), receipt.to)
        && work == old(work).(index := snapshot(receipt.from), files := snapshot(receipt.from))
      ensures quiet && !ok && |moves| != 1 ==> work == old(work)
      ensures Smooth() ==> (ok <==> receipt.from != receipt.to && old(Movable(receipt.to, receipt.from)))
      ensures Smooth() && !ok ==> ref == old(ref) && work == old(work)
    {
      moves := [];
      if receipt.from == receipt.to {
        return false, moves;
      }
      var owned := AssertOwnedBranchGeneration(receipt.to);
      if !owned {
        return false, moves;
      }
      ok, moves := TransitionAttachedBranch(receipt.to, receipt.from);
    }

    /** In a quiet repository, forward and back restores the ref and every part of the checkout. */
    method ForwardAndBack(from: Commit, to: Commit) returns (forward: bool, back: bool)
      requires quiet
      modifies this`ref, this`work, this`trace
      ensures forward && back ==> ref == old(ref) == Some(from) && work == old(work)
      ensures back ==> forward
      ensures Smooth() ==> (forward <==> from != to && isAncestor(from, to) && old(Movable(from, to)))
      ensures Smooth() && forward && !Collides(work.ignored, snapshot(from)) ==> back
    {
      var receipt, moves := FastForward(from, to);
      forward, back := receipt.Some?, false;
      if receipt.Some? {
        back, moves := RestoreFastForward(receipt.value);
      }
    }

    // ----- branches that are not checked out

    method BranchCheckedOut() returns (checkedOut: Option<bool>)
      modifies this`ref, this`work
      ensures exclusive || quiet ==> ref == old(ref)
      ensures quiet ==> work == old(work)
      ensures quiet && checkedOut.Some? ==> checkedOut.value == (work.attached || work.checkedOutElsewhere)
      ensures quiet && !failing ==> checkedOut.Some?
    {
      Interfere();
      var ok := Outcome();
      checkedOut := if ok then Some(work.attached || work.checkedOutElsewhere) else None;
    }

    /**
     Advancing a branch that no worktree has checked out. A receipt is returned exactly when the compare-and-swap
     took effect and Git said so; a caller without receipt can have moved the ref only if Git reported a failure
     after the fact.
    */
    method FastForwardRef(from: Commit, to: Commit, canceled: bool)
      returns (receipt: Option<Receipt>, error: bool, ghost moves: seq<Move>)
      modifies this`ref, this`work, this`trace
      ensures trace == Onward(old(trace), moves)
      ensures receipt.Some? ==> receipt.value == Receipt(from, to)
      ensures receipt.Some? <==> moves == [Move(from, to, true)]
      ensures receipt.None? ==> error && (moves == [] || moves == [Move(from, to, false)])
      ensures moves != [] ==> from != to && isAncestor(from, to)
      ensures exclusive || quiet ==> RefFollows(old(ref), ref, moves, from, to)
      ensures quiet ==> work == old(work) && (!error ==> !work.attached && !work.checkedOutElsewhere)
      ensures !error ==> receipt.Some? && !canceled
      ensures Smooth() && receipt.Some? ==> (error <==> canceled)
      ensures Smooth() ==>
        (receipt.Some? <==> from != to && isAncestor(from, to) && old(ref) == Some(from) &&
                            !work.attached && !work.checkedOutElsewhere)
      ensures Lied() && from != to && isAncestor(from, to) && old(ref) == Some(from) &&
              !work.attached && !work.checkedOutElsewhere ==>
        receipt.None? && moves == [Move(from, to, false)] && ref == Some(to)
    {
      receipt, error, moves := None, true, [];
      if from == to {
        return;
      }
      var checkedOut := BranchCheckedOut();
      if checkedOut != Some(false) {
        return;
      }
      Interfere();
      var known := Outcome();
      if !known || ref != Some(from) {
        return;
      }
      Interfere();
      known := Outcome();
      if !known || !isAncestor(from, to) {
        return;
      }
      checkedOut := BranchCheckedOut();
      if checkedOut != Some(false) {
        return;
      }
      var ok, moved := UpdateBranchRef(to, from);
      moves := if moved then [Move(from, to, ok)] else [];
      if !ok {
        return;
      }
      receipt := Some(Receipt(from, to));
      checkedOut := BranchCheckedOut();
      if checkedOut != Some(false) {
        return;
      }
      error := canceled;
    }

    /** Undoing FastForwardRef, while the branch is still inactive and still has the recorded commit. */
    method RestoreFastForwardRef(receipt: Receipt) returns (ok: bool, ghost moves: seq<Move>)
      modifies this`ref, this`work, this`trace
      ensures trace == Onward(old(trace), moves)
      ensures moves == [] || (|moves| == 1 && moves[0] == Move(receipt.to, receipt.from, ok))
      ensures ok ==> moves != []
      ensures exclusive || quiet ==> RefFollows(old(ref), ref, moves, receipt.to, receipt.from)
      ensures quiet ==> work == old(work)
      ensures Smooth() ==>
        (ok <==>
           receipt.from != receipt.to && old(ref) == Some(receipt.to) && !work.attached && !work.checkedOutElsewhere)
    {
      ok, moves := false, [];
      if receipt.from == receipt.to {
        return;
      }
      var checkedOut := BranchCheckedOut();
      if checkedOut != Some(false) {
        return;
      }
      Interfere();
      var known := Outcome();
      if !known || ref != Some(receipt.to) {
        return;
      }
      ghost var moved;
      ok, moved := UpdateBranchRef(receipt.from, receipt.to);
      moves := if moved then [Move(receipt.to, receipt.from, ok)] else [];
    }
  }

  // ----- what callers may conclude

  /**
   If nobody else writes the branch, a failed transition that left the ref at the source either never wrote a file
   or saw the checkout equal to the source after its last write.
  */
  lemma FailureAtSourceIsHarmless(before: Trace, after: Trace, moves: seq<Move>, from: Commit, to: Commit,
                                  refBefore: Option<Commit>, refAfter: Option<Commit>)
    requires from != to && Transitioned(false, before, after, moves, from, to)
    requires RefFollows(refBefore, refAfter, moves, from, to) && refAfter == Some(from)
    ensures after.writes == before.writes || after.seen == Some(from)
  {
  }

  /**
   The condition is needed. When somebody else moves the branch back after the files have been written, the call fails
   with the ref at the source, and index and working files are those of the target.
  */
  method ForeignRollbackHidesResidue(snapshot: Commit -> Tree, isAncestor: (Commit, Commit) -> bool, from: Commit,
                                     to: Commit)
    returns (checkout: Checkout, receipt: Option<Receipt>)
    requires from != to && isAncestor(from, to)
    ensures receipt.None? && checkout.ref == Some(from)
    ensures checkout.work.index == checkout.work.files == snapshot(to)
    ensures checkout.trace.writes == 1 && checkout.trace.seen == None
    ensures fresh(checkout) && checkout.snapshot == snapshot
  {
    var work := Work(true, None, false, snapshot(from), snapshot(from), {}, map[]);
    checkout := new Checkout(Environment(false, false, false, false, Some(from)), snapshot, isAncestor, Some(from),
                             work);
    assert checkout.Movable(from, to);
    ghost var moves;
    receipt, moves := checkout.FastForward(from, to);
  }

  /**
   The receipt does not tell everything: when Git reports a ref update as failed that took effect, there is no receipt,
   and the ref has moved.
  */
  method LostAcknowledgementHidesMove(snapshot: Commit -> Tree, isAncestor: (Commit, Commit) -> bool, from: Commit,
                                      to: Commit)
    returns (checkout: Checkout, receipt: Option<Receipt>, error: bool)
    requires from != to && isAncestor(from, to)
    ensures receipt.None? && error && checkout.ref == Some(to) && checkout.trace.moves == [Move(from, to, false)]
    ensures fresh(checkout) && checkout.snapshot == snapshot
  {
    var work := Work(false, None, false, map[], map[], {}, map[]);
    checkout := new Checkout(Environment(true, true, false, true, None), snapshot, isAncestor, Some(from), work);
    ghost var moves;
    receipt, error, moves := checkout.FastForwardRef(from, to, false);
  }

  // ----- foreign values

  /** One change of the ref: a move of the protocol, or whatever somebody else did. */
  datatype RefWrite = Own(move: Move) | Foreign(value: Option<Commit>)

  /** The value of the ref after the first n changes. */
  function RefAfter(first: Option<Commit>, run: seq<RefWrite>, n: nat): Option<Commit>
    requires n <= |run|
  {
    if n == 0 then first
    else match run[n - 1] case Own(move) => Some(move.to) case Foreign(value) => value
  }

  /** The values of the ref that the moves of the protocol replaced. */
  function ReplacedIn(first: Option<Commit>, run: seq<RefWrite>): seq<Option<Commit>> {
    if run == [] then []
    else
      var n := |run| - 1;
      ReplacedIn(first, run[..n]) + if run[n].Own? then [RefAfter(first, run, n)] else []
  }

  function OwnMoves(run: seq<RefWrite>): seq<Move> {
    if run == [] then []
    else OwnMoves(run[..|run| - 1]) + if run[|run| - 1].Own? then [run[|run| - 1].move] else []
  }

  /** The commit is the source, or the protocol itself has put it there earlier. */
  ghost predicate SourceOrInstalled(run: seq<RefWrite>, i: nat, from: Commit, c: Commit)
    requires i <= |run|
  {
    c == from || exists j :: 0 <= j < i && run[j].Own? && run[j].move.to == c
  }

  /** Where the moves replaced what they name, each found the commit it starts from. */
  lemma {:induction false} SwapsAreExact(first: Option<Commit>, run: seq<RefWrite>, i: nat)
    requires ReplacedIn(first, run) == Sources(OwnMoves(run)) && i < |run| && run[i].Own?
    ensures RefAfter(first, run, i) == Some(run[i].move.from)
    decreases |run|
  {
    var n := |run| - 1;
    ReplacedLength(first, run[..n]);
    var before, replaced := OwnMoves(run[..n]), ReplacedIn(first, run[..n]);
    assert replaced == ReplacedIn(first, run)[..|replaced|] == Sources(OwnMoves(run))[..|before|] == Sources(before);
    if i < n {
      SwapsAreExact(first, run[..n], i);
      assert RefAfter(first, run[..n], i) == RefAfter(first, run, i);
    } else {
      assert ReplacedIn(first, run)[|replaced|] == RefAfter(first, run, n);
      assert Sources(OwnMoves(run))[|before|] == Some(run[n].move.from);
    }
  }

  lemma {:induction false} ReplacedLength(first: Option<Commit>, run: seq<RefWrite>)
    ensures |ReplacedIn(first, run)| == |OwnMoves(run)|
  {
    if run != [] {
      ReplacedLength(first, run[..|run| - 1]);
    }
  }

  /**
   A value the protocol did not install is never overwritten. Take any transition, and any history of the ref that has
   the transition's moves and the replaced values of its trace, with the writes of others anywhere in between: what a
   move overwrites is the source it was asked to leave, or a commit that an earlier move put there.
  */
  lemma ForeignValuesSurvive(ok: bool, before: Trace, after: Trace, moves: seq<Move>, from: Commit,
                             to: Commit, first: Option<Commit>, run: seq<RefWrite>, i: nat)
    requires Transitioned(ok, before, after, moves, from, to)
    requires OwnMoves(run) == moves && before.replaced + ReplacedIn(first, run) == after.replaced
    requires i < |run| && run[i].Own?
    ensures exists c :: RefAfter(first, run, i) == Some(c) && SourceOrInstalled(run, i, from, c)
  {
    assert ReplacedIn(first, run) == Sources(moves) by {
      assert (before.replaced + ReplacedIn(first, run))[|before.replaced|..] == ReplacedIn(first, run);
      assert (before.replaced + Sources(moves))[|before.replaced|..] == Sources(moves);
    }
    SwapsAreExact(first, run, i);
    var c := run[i].move.from;
    assert RefAfter(first, run, i) == Some(c);
    OwnMovesSplit(run, i);
    var earlier := OwnMoves(run[..i]);
    assert moves[|earlier|] == run[i].move;
    if |earlier| > 0 {
      OwnMoveAt(run[..i], 0);
      assert moves[0].to == to;
    }
  }

  /** The own moves before a change come first, and then the change itself. */
  lemma {:induction false} OwnMovesSplit(run: seq<RefWrite>, i: nat)
    requires i < |run| && run[i].Own?
    ensures OwnMoves(run[..i]) + [run[i].move] <= OwnMoves(run)
    decreases |run|
  {
    var n := |run| - 1;
    if i < n {
      OwnMovesSplit(run[..n], i);
      assert run[..n][..i] == run[..i];
    }
  }

  lemma {:induction false} OwnMoveAt(run: seq<RefWrite>, k: nat)
    requires k < |OwnMoves(run)|
    ensures exists j :: 0 <= j < |run| && run[j].Own? && run[j].move == OwnMoves(run)[k]
  {
    var n := |run| - 1;
    if k < |OwnMoves(run[..n])| {
      OwnMoveAt(run[..n], k);
      var j :| 0 <= j < n && run[..n][j].Own? && run[..n][j].move == OwnMoves(run[..n])[k];
      assert run[j].Own?;
    } else {
      assert run[n].Own?;
    }
  }
}
