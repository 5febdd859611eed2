/**
 Updating one companion workspace (internal/service/companion_update.go:1052-1289).

 A workspace has two resources that must change together: its branch checkout and its state file. Both may be
 changed by others between any two observations, and every read or write may fail, also after it took effect.
*/
module Companion {
  import opened Options
  import opened GitBranch

  type Bytes = string

  /** A run can be canceled at any moment, and stays canceled; handing over an entry can fail. */
  class RunContext {
    var canceled: bool
    ghost var outputFailed: bool
    /** The entries that were handed over, or attempted to be. */
    ghost var handed: seq<Entry>

    method Canceled() returns (c: bool)
      modifies this
      ensures c == canceled && (old(canceled) ==> canceled)
      ensures outputFailed == old(outputFailed) && handed == old(handed)
    {
      if * {
        canceled := true;
      }
      c := canceled;
    }

    /** Handing one settled entry to the caller; its output may fail. */
    method Progress(entry: Entry) returns (ok: bool)
      modifies this`outputFailed, this`handed
      ensures outputFailed == (old(outputFailed) || !ok) && handed == old(handed) + [entry]
    {
      handed := handed + [entry];
      ok := *;
      if !ok {
        outputFailed := true;
      }
    }
  }

  datatype Status = Completed | Failed | CanceledStatus

  datatype Action = NoAction | Unchanged | FastForwarded

  datatype Reason = NoReason | InvalidState | StaleGeneration | Missing | IdentityMismatch | DetachedHead |
    BranchMismatch | Dirty | RecoveryBlocked | Rewritten | Diverged | StatePublicationFailed | RollbackIncomplete

  datatype Entry = Entry(workspace: string, previousHead: Option<Commit>, resultingHead: Option<Commit>,
                         action: Action, status: Status, reason: Reason)

  /** What the plan read of a workspace: the bytes of its state file and the head recorded in them. */
  datatype Planned = Planned(before: Bytes, head: Commit)

  /** A replacement of the state file by this run that took effect. */
  datatype FileMove = FileMove(from: Bytes, to: Bytes)

  /** What is known after a failed publication. */
  datatype Publication = Publication(attempted: Bytes, installed: bool, uncertain: bool)

  /** Commit ancestry is reflexive and transitive. */
  ghost predicate IsAncestry(isAncestor: (Commit, Commit) -> bool) {
    && (forall a :: isAncestor(a, a))
    && (forall a, b, c | isAncestor(a, b) && isAncestor(b, c) :: isAncestor(a, c))
  }

  ghost predicate IsAntisymmetric(isAncestor: (Commit, Commit) -> bool) {
    forall a, b | isAncestor(a, b) && isAncestor(b, a) :: a == b
  }

  /** What is found where the checkout should be: nothing, something else, or this repository's checkout. */
  datatype Site = Empty | Occupied | OwnCheckout

  /** The state of one workspace and what this run did to it. */
  datatype Facts = Facts(ref: Option<Commit>, work: Work, trace: Trace, file: Option<Bytes>, fileMoves: seq<FileMove>,
                         publications: nat, lastSeen: Option<Bytes>, site: Site, recorded: bool, recoveries: nat,
                         lateStarts: nat)

  /** The moves go there, back, there again, and so on: each starts where the one before it ended. */
  predicate Alternates(moves: seq<Move>, from: Commit, to: Commit) {
    forall i | 0 <= i < |moves| ::
      moves[i].from == (if i % 2 == 0 then from else to) && moves[i].to == (if i % 2 == 0 then to else from)
  }

  /** The moves made between two traces. */
  function NewMoves(before: Trace, after: Trace): seq<Move>
    requires |before.moves| <= |after.moves|
  {
    after.moves[|before.moves|..]
  }

  /** Where the ref stands after the moves, if nobody else writes it. */
  predicate RefAlong(before: Option<Commit>, after: Option<Commit>, moves: seq<Move>) {
    if moves == [] then after == before
    else before == Some(moves[0].from) && after == Some(moves[|moves| - 1].to)
  }

  /**
   Everything that was moved in between went from the one commit to the other and back, and replaced exactly the value
   it names.
  */
  predicate Went(before: Trace, after: Trace, from: Commit, to: Commit) {
    && before.moves <= after.moves && MovedBy(before, after, NewMoves(before, after))
    && Alternates(NewMoves(before, after), from, to)
  }

  lemma TransitionWent(before: Trace, after: Trace, moves: seq<Move>, from: Commit, to: Commit)
    requires MovedBy(before, after, moves) && TransitionMoves(moves, from, to)
    ensures Went(before, after, from, to) && NewMoves(before, after) == moves
  {
  }

  lemma FollowsAlong(before: Option<Commit>, after: Option<Commit>, moves: seq<Move>, from: Commit, to: Commit)
    requires TransitionMoves(moves, from, to) && RefFollows(before, after, moves, from, to)
    ensures RefAlong(before, after, moves)
  {
  }

  /** One move there, and then whatever a way back did. */
  lemma ThereAndBack(t0: Trace, t1: Trace, t2: Trace, from: Commit, to: Commit)
    requires MovedBy(t0, t1, [Move(from, to, true)]) && Went(t1, t2, to, from)
    ensures Went(t0, t2, from, to) && NewMoves(t0, t2) == [Move(from, to, true)] + NewMoves(t1, t2)
  {
    var back := NewMoves(t1, t2);
    AlternatesFrom(Move(from, to, true), back, from, to);
    hide Alternates;
    MovedOnward(t0, t1, t2, [Move(from, to, true)], back);
    hide Sources;
    MovedByIsNew(t0, t2, [Move(from, to, true)] + back);
  }

  lemma MovedByIsNew(before: Trace, after: Trace, moves: seq<Move>)
    requires MovedBy(before, after, moves)
    ensures before.moves <= after.moves && NewMoves(before, after) == moves
  {
  }

  lemma AlternatesFrom(move: Move, moves: seq<Move>, from: Commit, to: Commit)
    requires move.from == from && move.to == to && Alternates(moves, to, from)
    ensures Alternates([move] + moves, from, to)
  {
    var all := [move] + moves;
    forall i | 0 <= i < |all|
      ensures all[i].from == (if i % 2 == 0 then from else to) && all[i].to == (if i % 2 == 0 then to else from)
    {
      if i > 0 {
        assert all[i] == moves[i - 1];
        assert (i - 1) % 2 == 0 <==> i % 2 != 0;
      }
    }
  }

  lemma AlongTogether(r0: Option<Commit>, r1: Option<Commit>, r2: Option<Commit>, move: Move, moves: seq<Move>)
    requires r0 == Some(move.from) && r1 == Some(move.to) && RefAlong(r1, r2, moves)
    ensures RefAlong(r0, r2, [move] + moves)
  {
  }

  class Workspace {
    const id: string
    const name: string
    const valid: bool
    const present: bool
    const checkout: Checkout
    /** The state file's bytes with a given head recorded in it. */
    const encode: Commit -> Bytes

    var file: Option<Bytes>
    var site: Site
    /** A recovery record of this workspace exists. */
    var recorded: bool
    ghost var fileMoves: seq<FileMove>
    /** How often this run set out to record a new head. */
    ghost var publications: nat
    ghost var recoveries: nat
    /** What the state file was seen to hold since the last write of this run. */
    ghost var lastSeen: Option<Bytes>
    /** How many updates of this workspace were begun although the run was canceled or its output had failed. */
    ghost var lateStarts: nat

    constructor (id: string, name: string, valid: bool, present: bool, checkout: Checkout, encode: Commit -> Bytes,
                 file: Option<Bytes>, site: Site, recorded: bool)
      ensures this.id == id && this.name == name && this.valid == valid && this.present == present
      ensures this.checkout == checkout && this.encode == encode && this.file == file
      ensures this.site == site && this.recorded == recorded
      ensures fileMoves == [] && publications == 0 && recoveries == 0 && lateStarts == 0
    {
      this.id, this.name, this.valid, this.present := id, name, valid, present;
      this.checkout, this.encode, this.file := checkout, encode, file;
      this.site, this.recorded := site, recorded;
      fileMoves, publications, recoveries, lastSeen, lateStarts := [], 0, 0, None, 0;
    }

    /** Everything about the workspace that can change. */
    ghost function Now(): Facts
      reads this, checkout
    {
      Facts(checkout.ref, checkout.work, checkout.trace, file, fileMoves, publications, lastSeen, site, recorded,
            recoveries, lateStarts)
    }

    // ----- the state file

    method InterfereFile()
      modifies this`file
      ensures checkout.quiet ==> file == old(file)
    {
      if !checkout.quiet {
        file := *;
      }
    }

    method ReadFile() returns (bytes: Option<Bytes>)
      modifies this`file, this`lastSeen
      ensures checkout.quiet ==> file == old(file)
      ensures bytes.Some? ==> bytes == file
      ensures checkout.Smooth() ==> bytes == file
      ensures lastSeen == bytes
    {
      InterfereFile();
      var ok := checkout.Outcome();
      bytes := if ok then file else None;
      lastSeen := bytes;
    }

    /**
     The guarded writer of the store: it replaces the file only while its bytes are the given ones. It can fail
     before or after the replacement; replaced says whether a failure was reported as coming after it.
    */
    method WriteGuarded(guard: Bytes, next: Bytes) returns (ok: bool, replaced: bool, ghost took: bool)
      modifies this`file, this`fileMoves, this`lastSeen
      ensures ok || replaced ==> took
      ensures fileMoves == if took then old(fileMoves) + [FileMove(guard, next)] else old(fileMoves)
      ensures checkout.quiet ==> if took then old(file) == Some(guard) && file == Some(next) else file == old(file)
      ensures checkout.Smooth() ==> ok == (old(file) == Some(guard))
    {
      InterfereFile();
      ok, replaced, took := false, false, false;
      var effect := checkout.Outcome();
      if effect && file == Some(guard) {
        file := Some(next);
        took, lastSeen := true, None;
        fileMoves := fileMoves + [FileMove(guard, next)];
        ok := checkout.Outcome();
        replaced := *;
      }
    }

    method PublishHead(planned: Planned, head: Commit) returns (ok: bool, p: Publication)
      modifies this`file, this`fileMoves, this`publications, this`lastSeen
      ensures publications == old(publications) + 1
      ensures ok ==> fileMoves == old(fileMoves) + [FileMove(planned.before, encode(head))]
      ensures !ok && !p.installed && !p.uncertain ==> fileMoves == old(fileMoves) || lastSeen == Some(planned.before)
      ensures !ok ==>
                fileMoves == old(fileMoves) || fileMoves == old(fileMoves) + [FileMove(planned.before, encode(head))]
      ensures p.attempted == encode(head)
      ensures checkout.quiet && ok ==> file == Some(encode(head))
      ensures checkout.quiet && !ok && old(file) == Some(planned.before) && !p.uncertain ==>
        file == Some(if p.installed then p.attempted else planned.before)
      ensures checkout.Smooth() && old(file) == Some(planned.before) ==> ok
    {
      p := Publication(encode(head), false, false);
      publications := publications + 1;
      var encoded := checkout.Outcome();
      if !encoded {
        return false, p;
      }
      var replaced;
      ghost var took;
      ok, replaced, took := WriteGuarded(planned.before, p.attempted);
      if ok {
        return;
      }
      var current := ReadFile();
      var installed := current == Some(p.attempted);
      p := Publication(p.attempted, installed, !installed && (replaced || current != Some(planned.before)));
    }

    method RestorePublishedState(planned: Planned, p: Publication) returns (ok: bool)
      modifies this`file, this`fileMoves, this`lastSeen
      ensures fileMoves == old(fileMoves) || fileMoves == old(fileMoves) + [FileMove(p.attempted, planned.before)]
      ensures ok ==> if p.installed then lastSeen == Some(planned.before)
                     else lastSeen == old(lastSeen) && fileMoves == old(fileMoves)
      ensures ok ==> !p.uncertain
      ensures checkout.quiet && ok && p.installed ==> file == Some(planned.before)
      ensures checkout.quiet && ok && !p.installed ==> file == old(file)
    {
      if p.uncertain {
        return false;
      }
      if !p.installed {
        return true;
      }
      var _, _, took := WriteGuarded(p.attempted, planned.before);
      var current := ReadFile();
      ok := current == Some(planned.before);
    }

    // ----- one workspace

    /** The checkout directory exists, or has the expected Git identity: an observation that may fail. */
    method Observe() returns (ok: bool)
      modifies checkout`ref, checkout`work
      ensures checkout.exclusive || checkout.quiet ==> checkout.ref == old(checkout.ref)
      ensures checkout.quiet ==> checkout.work == old(checkout.work)
      ensures checkout.Smooth() ==> ok
      ensures checkout.Spoiled() && checkout.trace.writes > 0 ==>
        ok && checkout.ref == checkout.spoiler && checkout.work == old(checkout.work)
    {
      checkout.Interfere();
      ok := checkout.Outcome();
    }

    /** HEAD of the checkout. */
    method Head() returns (head: Option<Commit>)
      modifies checkout`ref, checkout`work
      ensures checkout.exclusive || checkout.quiet ==> checkout.ref == old(checkout.ref)
      ensures checkout.quiet ==> checkout.work == old(checkout.work)
      ensures checkout.quiet && head.Some? && checkout.work.attached ==> checkout.ref == head
      ensures checkout.Smooth() && checkout.work.attached ==> checkout.ref == head
    {
      var ok := Observe();
      head := if !ok then None else if checkout.work.attached then checkout.ref else checkout.work.detachedHead;
    }

    method ResolveBranch() returns (commit: Option<Commit>)
      modifies checkout`ref, checkout`work
      ensures checkout.exclusive || checkout.quiet ==> checkout.ref == old(checkout.ref)
      ensures checkout.quiet ==> checkout.work == old(checkout.work)
      ensures commit.Some? ==> commit == checkout.ref
      ensures checkout.Smooth() ==> commit == checkout.ref
      ensures checkout.Spoiled() && checkout.trace.writes > 0 ==>
        commit == checkout.ref == checkout.spoiler && checkout.work == old(checkout.work)
    {
      var ok := Observe();
      commit := if ok then checkout.ref else None;
    }

    /** A reachability query; a missing object is answered with no. */
    method IsAncestor(ancestor: Commit, descendant: Commit) returns (answer: Option<bool>)
      modifies checkout`ref, checkout`work
      ensures checkout.exclusive || checkout.quiet ==> checkout.ref == old(checkout.ref)
      ensures checkout.quiet ==> checkout.work == old(checkout.work)
      ensures answer == Some(true) ==> checkout.isAncestor(ancestor, descendant)
      ensures checkout.Smooth() ==> answer == Some(checkout.isAncestor(ancestor, descendant))
    {
      var ok := Observe();
      var found := checkout.Outcome();
      answer := if !ok then None else Some(found && checkout.isAncestor(ancestor, descendant));
    }

    /** The observation of the checkout path and of the recovery records; others may have changed both. */
    method Look() returns (ok: bool)
      modifies this`site, this`recorded, checkout`ref, checkout`work
      ensures checkout.exclusive || checkout.quiet ==> checkout.ref == old(checkout.ref)
      ensures checkout.quiet ==> checkout.work == old(checkout.work) && site == old(site) && recorded == old(recorded)
      ensures checkout.Smooth() ==> ok
    {
      ok := Observe();
      if !checkout.quiet {
        site, recorded := *, *;
      }
    }

    /** Whether the index and the files are those of HEAD and nothing is untracked. */
    method IsClean() returns (clean: bool)
      modifies checkout`ref, checkout`work
      ensures checkout.exclusive || checkout.quiet ==> checkout.ref == old(checkout.ref)
      ensures checkout.quiet ==> checkout.work == old(checkout.work)
      ensures checkout.quiet && clean && checkout.work.attached && checkout.ref.Some? ==>
        checkout.Clean(checkout.work, checkout.ref.value)
      ensures checkout.Smooth() && checkout.work.attached ==> (clean <==> CleanAt(checkout.work, checkout.ref))
      ensures checkout.Smooth() && checkout.work.attached ==>
        var tree := if checkout.ref.Some? then checkout.snapshot(checkout.ref.value) else map[];
        (clean <==> checkout.work.index == checkout.work.files == tree && checkout.work.untracked == {})
    {
      var ok := Observe();
      clean := ok && CleanAt(checkout.work,
                             if checkout.work.attached then checkout.ref else checkout.work.detachedHead);
    }

    /** The checkout is untouched; before the first commit that means empty. */
    predicate CleanAt(work: Work, head: Option<Commit>) {
      match head
      case Some(commit) => checkout.Clean(work, commit)
      case None => work.index == map[] && work.files == map[] && work.untracked == {}
    }

    /** A recovery record is written, or at least attempted; one that exists is never replaced. */
    method RecordRecovery()
      modifies this`recoveries, this`recorded
      ensures recoveries == old(recoveries) + 1
      ensures old(recorded) || checkout.Smooth() ==> recorded
    {
      var written := checkout.Outcome();
      recorded := recorded || written;
      recoveries := recoveries + 1;
    }

    /** The first thing that keeps a workspace from being touched. */
    ghost function Obstacle(now: Facts, planned: Planned): Reason {
      if !valid then InvalidState
      else if now.file != Some(planned.before) then StaleGeneration
      else if now.site == Empty then Missing
      else if now.site == Occupied then IdentityMismatch
      else if !now.work.attached then BranchMismatch
      else if !CleanAt(now.work, now.ref) then Dirty
      else if now.recorded then RecoveryBlocked
      else if now.ref.None? then Missing
      else if !checkout.isAncestor(planned.head, now.ref.value) then Rewritten
      else NoReason
    }

    /** The record is readable and current, and the checkout is there and is this repository's, on its branch. */
    predicate OnBranch(now: Facts, planned: Planned) {
      valid && now.file == Some(planned.before) && now.site == OwnCheckout && now.work.attached
    }

    /** Each answer has one exact condition: dirty is named before a recovery record, and that before the head. */
    lemma AnswerIff(now: Facts, planned: Planned)
      ensures Obstacle(now, planned) == StaleGeneration <==> valid && now.file != Some(planned.before)
      ensures Obstacle(now, planned) == BranchMismatch <==>
              valid && now.file == Some(planned.before) && now.site == OwnCheckout && !now.work.attached
      ensures Obstacle(now, planned) == Dirty <==> OnBranch(now, planned) && !CleanAt(now.work, now.ref)
      ensures Obstacle(now, planned) == RecoveryBlocked <==>
              OnBranch(now, planned) && CleanAt(now.work, now.ref) && now.recorded
      ensures Obstacle(now, planned) == Rewritten <==>
              && OnBranch(now, planned) && CleanAt(now.work, now.ref) && !now.recorded
              && now.ref.Some? && !checkout.isAncestor(planned.head, now.ref.value)
      ensures Obstacle(now, planned) == NoReason <==>
              && OnBranch(now, planned) && CleanAt(now.work, now.ref) && !now.recorded
              && now.ref.Some? && checkout.isAncestor(planned.head, now.ref.value)
    {
    }

    /**
     Everything that must hold before a workspace may be touched; NoReason means go on. Undisturbed, the answer is the
     first obstacle there is.
    */
    method Preflight(planned: Planned) returns (reason: Reason, head: Commit)
      modifies this`file, this`lastSeen, this`site, this`recorded, checkout`ref, checkout`work
      ensures checkout.exclusive || checkout.quiet ==> checkout.ref == old(checkout.ref)
      ensures checkout.quiet ==> checkout.work == old(checkout.work) && file == old(file)
      ensures checkout.quiet ==> site == old(site) && recorded == old(recorded)
      ensures reason !in {RollbackIncomplete, StatePublicationFailed, Diverged}
      ensures reason == InvalidState <==> !valid
      ensures reason == NoReason ==> valid && checkout.isAncestor(planned.head, head)
      ensures checkout.quiet && reason == NoReason ==>
                Obstacle(Now(), planned) == NoReason && checkout.ref == Some(head)
      ensures checkout.Smooth() ==>
        var obstacle := Obstacle(old(Now()), planned);
        reason == obstacle || (obstacle == BranchMismatch && reason == DetachedHead)
    {
      head := "";
      if !valid {
        return InvalidState, head;
      }
      var current := ReadFile();
      if current != Some(planned.before) {
        return StaleGeneration, head;
      }
      var ok := Look();
      if !ok || site == Empty {
        return Missing, head;
      }
      ok := Look();
      if !ok || site != OwnCheckout {
        return IdentityMismatch, head;
      }
      ok := Look();
      if !ok || site != OwnCheckout {
        return IdentityMismatch, head;
      }
      ok := Observe();
      if !ok {
        return DetachedHead, head;
      }
      if !checkout.work.attached {
        if * {
          return DetachedHead, head;
        }
        return BranchMismatch, head;
      }
      ok := IsClean();
      if !ok {
        return Dirty, head;
      }
      ok := Look();
      if !ok || recorded {
        return RecoveryBlocked, head;
      }
      var observed := Head();
      if observed.None? {
        return Missing, head;
      }
      head := observed.value;
      var contains := IsAncestor(planned.head, head);
      if contains != Some(true) {
        return Rewritten, head;
      }
      return NoReason, head;
    }

    /**
     Moves the branch to the baseline. Without a receipt the ref is looked at: still at the old head, nothing remains to
     be done; anywhere else, a recovery record is attempted.
    */
    method Forward(entry: Entry, head: Commit, baseline: Commit) returns (receipt: Option<Receipt>, entry': Entry)
      modifies this`recoveries, this`recorded, checkout`ref, checkout`work, checkout`trace
      ensures Went(old(checkout.trace), checkout.trace, head, baseline)
      ensures checkout.exclusive || checkout.quiet ==>
        RefAlong(old(checkout.ref), checkout.ref, NewMoves(old(checkout.trace), checkout.trace))
      ensures checkout.trace.moves != old(checkout.trace).moves ==>
                head != baseline && checkout.isAncestor(head, baseline)
      ensures receipt.Some? ==>
        && receipt.value == Receipt(head, baseline) && recoveries == old(recoveries)
        && entry' == entry.(action := FastForwarded, resultingHead := Some(baseline))
        && MovedBy(old(checkout.trace), checkout.trace, [Move(head, baseline, true)])
        && checkout.trace.seen == Some(baseline)
      ensures receipt.Some? && (checkout.exclusive || checkout.quiet) ==>
        old(checkout.ref) == Some(head) && checkout.ref == Some(baseline)
      ensures receipt.Some? && checkout.quiet ==>
        checkout.Clean(old(checkout.work), head) &&
        checkout.work == old(checkout.work).(index := checkout.snapshot(baseline), files := checkout.snapshot(baseline))
      ensures if recoveries == old(recoveries) then recorded == old(recorded) else checkout.Smooth() ==> recorded
      ensures receipt.None? ==>
        || (entry' == entry.(reason := StaleGeneration) && recoveries == old(recoveries))
        || (entry' == entry.(action := FastForwarded, resultingHead := Some(baseline), reason := RollbackIncomplete) &&
            recoveries == old(recoveries) + 1)
      ensures receipt.None? && entry'.reason == StaleGeneration && (checkout.exclusive || checkout.quiet) ==>
        && checkout.ref == old(checkout.ref)
        && (checkout.trace.writes == old(checkout.trace).writes || checkout.trace.seen == Some(head))
      ensures receipt.None? && entry'.reason == StaleGeneration && checkout.quiet ==>
                checkout.work == old(checkout.work)
      ensures checkout.Smooth() && receipt.None? && old(checkout.ref) == Some(head) ==> entry'.reason == StaleGeneration
      ensures checkout.Smooth() ==>
        (receipt.Some? <==>
           head != baseline && checkout.isAncestor(head, baseline) && old(checkout.Movable(head, baseline)))
      ensures checkout.Spoiled() && old(checkout.trace).writes == 0 && old(checkout.Movable(head, baseline)) &&
              checkout.spoiler == Some(head) && head != baseline && checkout.isAncestor(head, baseline) ==>
        receipt.None? && entry'.reason == StaleGeneration && checkout.LeftBehind(old(checkout.work), baseline)
    {
      ghost var moves;
      receipt, moves := checkout.FastForward(head, baseline);
      TransitionWent(old(checkout.trace), checkout.trace, moves, head, baseline);
      if checkout.exclusive || checkout.quiet {
        FollowsAlong(old(checkout.ref), checkout.ref, moves, head, baseline);
      }
      hide Alternates, NewMoves, RefAlong, Went;
      if receipt.Some? {
        return receipt, entry.(action := FastForwarded, resultingHead := Some(baseline));
      }
      var actual := ResolveBranch();
      if actual != Some(head) {
        RecordRecovery();
        return None, entry.(action := FastForwarded, resultingHead := Some(baseline), reason := RollbackIncomplete);
      }
      return None, entry.(reason := StaleGeneration);
    }

    /** Moves the branch back, as far as it can be shown to be this run's. */
    method TakeBack(receipt: Receipt, ghost ref: Option<Commit>, ghost trace: Trace) returns (undone: bool)
      requires MovedBy(trace, checkout.trace, [Move(receipt.from, receipt.to, true)])
      requires checkout.exclusive || checkout.quiet ==> ref == Some(receipt.from) && checkout.ref == Some(receipt.to)
      modifies checkout`ref, checkout`work, checkout`trace
      ensures Went(trace, checkout.trace, receipt.from, receipt.to)
      ensures checkout.trace.moves != trace.moves
      ensures checkout.exclusive || checkout.quiet ==> RefAlong(ref, checkout.ref, NewMoves(trace, checkout.trace))
      ensures undone ==> checkout.trace.seen == Some(receipt.from)
      ensures checkout.Smooth() && receipt.from != receipt.to && old(checkout.Movable(receipt.to, receipt.from)) ==>
                undone
      ensures undone && (checkout.exclusive || checkout.quiet) ==> checkout.ref == Some(receipt.from)
      ensures undone && checkout.quiet ==>
        checkout.work ==
        old(checkout.work).(index := checkout.snapshot(receipt.from), files := checkout.snapshot(receipt.from))
    {
      ghost var moves;
      undone, moves := checkout.RestoreFastForward(receipt);
      TransitionWent(old(checkout.trace), checkout.trace, moves, receipt.to, receipt.from);
      ThereAndBack(trace, old(checkout.trace), checkout.trace, receipt.from, receipt.to);
      hide Alternates, NewMoves, RefAlong;
      if checkout.exclusive || checkout.quiet {
        FollowsAlong(old(checkout.ref), checkout.ref, moves, receipt.to, receipt.from);
        AlongTogether(ref, old(checkout.ref), checkout.ref, Move(receipt.from, receipt.to, true), moves);
      }
    }

    /** The branch has been moved: record the new head, or take back what was recorded and the move. */
    method PublishMoved(moved: Entry, planned: Planned, receipt: Receipt, ghost ref: Option<Commit>, ghost trace: Trace)
      returns (entry: Entry)
      requires moved.status == Failed && moved.reason == NoReason
      requires MovedBy(trace, checkout.trace, [Move(receipt.from, receipt.to, true)])
      requires checkout.exclusive || checkout.quiet ==> ref == Some(receipt.from) && checkout.ref == Some(receipt.to)
      requires checkout.quiet ==> file == Some(planned.before)
      modifies this`file, this`fileMoves, this`publications, this`recoveries, this`recorded, this`lastSeen
      modifies checkout`ref, checkout`work, checkout`trace
      ensures publications == old(publications) + 1
      ensures || entry == moved.(status := Completed)
              || entry == moved.(reason := RollbackIncomplete)
              || entry == moved.(reason := StatePublicationFailed, action := NoAction,
                                 resultingHead := Some(receipt.from))
      ensures recoveries == old(recoveries) + if entry.reason == RollbackIncomplete then 1 else 0
      ensures if entry.reason == RollbackIncomplete then checkout.Smooth() ==> recorded else recorded == old(recorded)
      ensures entry.status == Completed ==>
        && fileMoves == old(fileMoves) + [FileMove(planned.before, encode(receipt.to))]
        && checkout.trace == old(checkout.trace)
        && checkout.ref == old(checkout.ref) && checkout.work == old(checkout.work)
        && (checkout.quiet ==> file == Some(encode(receipt.to)))
      ensures entry.reason == StatePublicationFailed ==>
        && (fileMoves == old(fileMoves) || lastSeen == Some(planned.before))
        && checkout.trace.seen == Some(receipt.from)
        && (checkout.exclusive || checkout.quiet ==> checkout.ref == Some(receipt.from))
        && (checkout.quiet ==>
              && file == old(file)
              && checkout.work ==
                 old(checkout.work).(index := checkout.snapshot(receipt.from),
                                     files := checkout.snapshot(receipt.from)))
      ensures entry.status != Completed ==> Went(trace, checkout.trace, receipt.from, receipt.to)
      ensures entry.status != Completed ==> checkout.trace.moves != trace.moves
      ensures entry.status != Completed && (checkout.exclusive || checkout.quiet) ==>
        RefAlong(ref, checkout.ref, NewMoves(trace, checkout.trace))
      ensures checkout.Smooth() ==> entry.status == Completed
    {
      hide Alternates, NewMoves, RefAlong, Went;
      var published, publication := PublishHead(planned, receipt.to);
      if !published {
        entry := moved.(reason := StatePublicationFailed);
        var stateRestored := RestorePublishedState(planned, publication);
        var undone := TakeBack(receipt, ref, trace);
        if !undone || !stateRestored {
          RecordRecovery();
          return entry.(reason := RollbackIncomplete);
        }
        return entry.(action := NoAction, resultingHead := Some(receipt.from));
      }
      return moved.(status := Completed);
    }

    /** The branch is behind: move it, then record the new head, or take both back. */
    method ForwardAndPublish(planned: Planned, head: Commit, baseline: Commit, context: RunContext)
      returns (entry: Entry)
      requires checkout.quiet ==> file == Some(planned.before) && checkout.work.attached && checkout.ref == Some(head)
      modifies this`file, this`fileMoves, this`publications, this`recoveries, this`recorded, this`lastSeen
      modifies checkout`ref, checkout`work, checkout`trace, context
      ensures old(context.canceled) ==> context.canceled
      ensures context.outputFailed == old(context.outputFailed) && context.handed == old(context.handed)
      ensures entry.workspace == name && entry.previousHead == Some(planned.head) && entry.reason != InvalidState
      ensures entry.reason == NoReason <==> entry.status != Failed
      ensures entry.reason == RollbackIncomplete ==>
        entry.action == FastForwarded && entry.resultingHead == Some(baseline)
      ensures Published(old(publications), publications, entry)
      ensures entry.status == CanceledStatus ==> context.canceled
      ensures checkout.Smooth() && head != baseline && checkout.isAncestor(head, baseline) &&
              checkout.Clean(old(checkout.work), head) ==>
        if Collides(old(checkout.work).ignored, checkout.snapshot(baseline)) then entry.reason == StaleGeneration
        else entry.reason == NoReason ||
             (entry.reason == RollbackIncomplete && context.canceled &&
              Collides(old(checkout.work).ignored, checkout.snapshot(head)))
      ensures entry.status == Completed ==>
        && entry.reason == NoReason && entry.action == FastForwarded && entry.resultingHead == Some(baseline)
        && fileMoves == old(fileMoves) + [FileMove(planned.before, encode(baseline))]
        && MovedBy(old(checkout.trace), checkout.trace, [Move(head, baseline, true)])
        && checkout.trace.seen == Some(baseline)
      ensures entry.reason == RollbackIncomplete ==> entry.status == Failed
      ensures recoveries == old(recoveries) + if entry.reason == RollbackIncomplete then 1 else 0
      ensures if entry.reason == RollbackIncomplete then checkout.Smooth() ==> recorded else recorded == old(recorded)
      ensures checkout.quiet && entry.status == Completed ==>
        && checkout.ref == Some(baseline) && file == Some(encode(baseline))
        && checkout.Clean(checkout.work, baseline)
      ensures checkout.quiet && entry.status != Completed && entry.reason != RollbackIncomplete ==>
        && checkout.ref == old(checkout.ref) && checkout.work == old(checkout.work) && file == old(file)
      ensures checkout.exclusive && entry.status != Completed && entry.reason != RollbackIncomplete ==>
        checkout.ref == old(checkout.ref)
      ensures entry.status != Completed && entry.reason != RollbackIncomplete ==>
        fileMoves == old(fileMoves) || lastSeen == Some(planned.before)
      ensures checkout.trace.moves != old(checkout.trace).moves ==>
        head != baseline && checkout.isAncestor(head, baseline)
      ensures entry.status != Completed && entry.reason != RollbackIncomplete ==>
        entry.action == NoAction && entry.resultingHead == Some(head)
      ensures entry.status != Completed && entry.reason != RollbackIncomplete &&
              (checkout.exclusive || checkout.quiet || entry.reason != StaleGeneration) ==>
        checkout.trace.writes == old(checkout.trace).writes || checkout.trace.seen == Some(head)
      ensures Went(old(checkout.trace), checkout.trace, head, baseline)
      ensures checkout.exclusive || checkout.quiet ==>
        RefAlong(old(checkout.ref), checkout.ref, NewMoves(old(checkout.trace), checkout.trace))
      ensures checkout.Spoiled() && old(checkout.trace).writes == 0 && old(checkout.Movable(head, baseline)) &&
              checkout.spoiler == Some(head) && head != baseline && checkout.isAncestor(head, baseline) ==>
        entry.reason == StaleGeneration && checkout.LeftBehind(old(checkout.work), baseline)
      ensures checkout.Smooth() && !context.canceled && head != baseline && checkout.isAncestor(head, baseline) &&
              old(checkout.Movable(head, baseline)) ==>
        entry.status == Completed
      ensures checkout.Smooth() && entry.status == Completed ==> old(checkout.Movable(head, baseline))
      ensures checkout.quiet && entry.status == Completed ==> checkout.work.attached == old(checkout.work).attached
    {
      hide Alternates, NewMoves, RefAlong, Went, Collides;
      entry := Entry(name, Some(planned.head), Some(head), NoAction, Failed, NoReason);
      var receipt;
      receipt, entry := Forward(entry, head, baseline);
      if receipt.None? {
        return;
      }
      var canceled := context.Canceled();
      if canceled {
        var undone := TakeBack(receipt.value, old(checkout.ref), old(checkout.trace));
        if !undone {
          RecordRecovery();
          return entry.(reason := RollbackIncomplete);
        }
        return entry.(action := NoAction, resultingHead := Some(head), status := CanceledStatus);
      }
      entry := PublishMoved(entry, planned, receipt.value, old(checkout.ref), old(checkout.trace));
    }

    /** The branch already contains the baseline: only the record may have to change. */
    method PublishUnchanged(planned: Planned, head: Commit, context: RunContext) returns (entry: Entry)
      requires checkout.quiet ==> file == Some(planned.before)
      modifies this`file, this`fileMoves, this`publications, this`recoveries, this`recorded, this`lastSeen, context
      ensures old(context.canceled) ==> context.canceled
      ensures context.outputFailed == old(context.outputFailed) && context.handed == old(context.handed)
      ensures entry.workspace == name && entry.previousHead == Some(planned.head)
      ensures entry.action == Unchanged && entry.resultingHead == Some(head) && entry.reason != InvalidState
      ensures entry.reason == NoReason <==> entry.status != Failed
      ensures Published(old(publications), publications, entry)
      ensures entry.status == CanceledStatus ==> context.canceled
      ensures checkout.Smooth() ==> entry.reason == NoReason
      ensures entry.status == Completed ==>
        entry.reason == NoReason && fileMoves == old(fileMoves) + [FileMove(planned.before, encode(head))]
      ensures entry.reason == RollbackIncomplete ==> entry.status == Failed
      ensures recoveries == old(recoveries) + if entry.reason == RollbackIncomplete then 1 else 0
      ensures if entry.reason == RollbackIncomplete then checkout.Smooth() ==> recorded else recorded == old(recorded)
      ensures entry.status != Completed && entry.reason != RollbackIncomplete ==>
        fileMoves == old(fileMoves) || lastSeen == Some(planned.before)
      ensures checkout.quiet && entry.status == Completed ==> file == Some(encode(head))
      ensures checkout.quiet && entry.status != Completed && entry.reason != RollbackIncomplete ==> file == old(file)
      ensures checkout.Smooth() && !context.canceled ==> entry.status == Completed
    {
      entry := Entry(name, Some(planned.head), Some(head), Unchanged, Failed, NoReason);
      var canceled := context.Canceled();
      if canceled {
        return entry.(status := CanceledStatus);
      }
      var published, publication := PublishHead(planned, head);
      if !published {
        var restored := RestorePublishedState(planned, publication);
        if !restored {
          RecordRecovery();
          return entry.(reason := RollbackIncomplete);
        }
        return entry.(reason := StatePublicationFailed);
      }
      return entry.(status := Completed);
    }

    /** The branch is strictly behind the baseline. */
    predicate Behind(head: Commit, baseline: Commit) {
      head != baseline && checkout.isAncestor(head, baseline)
    }

    /** Why the workspace cannot be brought to the baseline, if anything. */
    ghost function Refusal(now: Facts, planned: Planned, baseline: Commit): Reason {
      var obstacle := Obstacle(now, planned);
      if obstacle != NoReason then obstacle
      else if Behind(now.ref.value, baseline) then
        if Collides(now.work.ignored, checkout.snapshot(baseline)) then StaleGeneration else NoReason
      else if checkout.isAncestor(baseline, now.ref.value) then NoReason
      else Diverged
    }

    /** A workspace without obstacle is refused exactly for an ignored file in the way of a move, or for diverging. */
    lemma RefusalIff(now: Facts, planned: Planned, baseline: Commit)
      requires Obstacle(now, planned) == NoReason
      ensures var head, refusal := now.ref.value, Refusal(now, planned, baseline);
              var moves := head != baseline && checkout.isAncestor(head, baseline);
              && (refusal == StaleGeneration <==> moves && Collides(now.work.ignored, checkout.snapshot(baseline)))
              && (refusal == Diverged <==> !moves && !checkout.isAncestor(baseline, head))
              && refusal in {NoReason, StaleGeneration, Diverged}
    {
    }

    /** The update of the workspace can complete, and nothing disturbs it. */
    ghost predicate Undisturbed(before: Facts, planned: Planned, baseline: Commit) {
      checkout.Smooth() && Refusal(before, planned, baseline) == NoReason
    }

    /** A new head was set out to be recorded exactly when the entry says so, or tells of a rollback. */
    predicate Published(before: nat, after: nat, entry: Entry) {
      entry.reason != RollbackIncomplete ==>
        after == before + if entry.status == Completed || entry.reason == StatePublicationFailed then 1 else 0
    }

    /**
     How an entry is worded. Undisturbed, a workspace that is refused is told the reason, and one that is not refused is
     completed or canceled; only a move that cannot be taken back after a cancellation is left rollback-incomplete.
    */
    ghost predicate Worded(before: Facts, after: Facts, entry: Entry, planned: Planned, baseline: Commit,
                           canceled: bool)
    {
      && entry.workspace == name && entry.previousHead == Some(planned.head)
      && (entry.reason == InvalidState <==> !valid)
      && (entry.reason == NoReason <==> entry.status != Failed)
      && (entry.status == CanceledStatus ==> canceled) && Published(before.publications, after.publications, entry)
      && (entry.status == Completed ==>
            entry.action == if after.trace.moves == before.trace.moves then Unchanged else FastForwarded)
      && (entry.reason == RollbackIncomplete ==>
            entry.resultingHead.Some? &&
            (entry.action == Unchanged || (entry.action == FastForwarded && entry.resultingHead == Some(baseline))))
      && (entry.status != Completed && entry.reason != RollbackIncomplete ==>
            entry.action != FastForwarded &&
            (checkout.quiet && entry.resultingHead.Some? ==> entry.resultingHead == before.ref))
      && (checkout.Smooth() ==> Answers(before, entry, Refusal(before, planned, baseline), baseline, canceled))
    }

    ghost predicate Answers(before: Facts, entry: Entry, refusal: Reason, baseline: Commit, canceled: bool) {
      || entry.reason == refusal
      || (refusal == BranchMismatch && entry.reason == DetachedHead)
      || (refusal == NoReason && canceled && entry.reason == RollbackIncomplete && before.ref.Some? &&
          Behind(before.ref.value, baseline) && Collides(before.work.ignored, checkout.snapshot(before.ref.value)))
    }

    /** A completed entry says: both resources are at one head, which contains the baseline and the recorded head. */
    ghost predicate CompletedWell(before: Facts, after: Facts, entry: Entry, planned: Planned, baseline: Commit) {
      && valid && entry.reason == NoReason && entry.resultingHead.Some?
      && checkout.isAncestor(baseline, entry.resultingHead.value)
      && checkout.isAncestor(planned.head, entry.resultingHead.value)
      && after.fileMoves == before.fileMoves + [FileMove(planned.before, encode(entry.resultingHead.value))]
      && |after.trace.moves| == |before.trace.moves| + (if entry.action == FastForwarded then 1 else 0)
      && (checkout.quiet ==>
            var head := entry.resultingHead.value;
            && after.ref == Some(head) && after.file == Some(encode(head))
            && checkout.Clean(after.work, head) && after.work.attached && after.site == OwnCheckout && !after.recorded)
      && (checkout.Smooth() ==> Undisturbed(before, planned, baseline))
    }

    /**
     What any other entry says that is not rollback-incomplete: both resources are as they were found, no file of the
     baseline is left behind, and the record was replaced only if it was seen to be restored.
    */
    ghost predicate LeftAlone(before: Facts, after: Facts, entry: Entry, planned: Planned) {
      && (checkout.quiet ==> after.ref == before.ref && after.work == before.work && after.file == before.file)
      && (checkout.exclusive ==> after.ref == before.ref)
      && (after.fileMoves == before.fileMoves || after.lastSeen == Some(planned.before))
      && (checkout.exclusive || checkout.quiet || entry.reason != StaleGeneration ==>
            after.trace.writes == before.trace.writes ||
            (entry.resultingHead.Some? && after.trace.seen == entry.resultingHead))
      && (checkout.quiet ==> after.recorded == before.recorded)
    }

    /** Every move of the branch was from a head strictly behind the baseline to the baseline, or back. */
    ghost predicate MovedWell(before: Facts, after: Facts, planned: Planned, baseline: Commit) {
      && before.trace.moves <= after.trace.moves
      && MovedBy(before.trace, after.trace, NewMoves(before.trace, after.trace))
      && var moves := NewMoves(before.trace, after.trace);
      && (moves != [] ==>
            var head := moves[0].from;
            && Alternates(moves, head, baseline)
            && head != baseline && checkout.isAncestor(head, baseline) && checkout.isAncestor(planned.head, head))
      && (checkout.exclusive || checkout.quiet ==> RefAlong(before.ref, after.ref, moves))
    }

    /** How an entry tells what happened to the workspace. */
    ghost predicate Updated(before: Facts, after: Facts, entry: Entry, planned: Planned, baseline: Commit) {
      && (entry.reason == RollbackIncomplete ==> entry.status == Failed)
      && after.recoveries == before.recoveries + (if entry.reason == RollbackIncomplete then 1 else 0)
      && (entry.reason == RollbackIncomplete && checkout.Smooth() ==> after.recorded)
      && (checkout.quiet && (entry.status == Completed || entry.reason == RollbackIncomplete) ==>
            Obstacle(before, planned) == NoReason)
      && (entry.status == Completed ==> CompletedWell(before, after, entry, planned, baseline))
      && (entry.status != Completed && entry.reason != RollbackIncomplete ==> LeftAlone(before, after, entry, planned))
      && MovedWell(before, after, planned, baseline)
    }

    /** All that an entry says, and that it is completed if nothing keeps it from being. */
    ghost predicate Reported(before: Facts, after: Facts, entry: Entry, planned: Planned, baseline: Commit,
                             canceled: bool)
      ensures Reported(before, after, entry, planned, baseline, canceled) ==> entry.workspace == name
    {
      && Updated(before, after, entry, planned, baseline) && Worded(before, after, entry, planned, baseline, canceled)
      && (!canceled && Undisturbed(before, planned, baseline) ==> entry.status == Completed)
    }

    lemma ReportedStill(before: Facts, after: Facts, entry: Entry, planned: Planned, baseline: Commit,
                        was: bool, canceled: bool)
      requires Reported(before, after, entry, planned, baseline, was) && (was ==> canceled)
      ensures Reported(before, after, entry, planned, baseline, canceled)
    {
      hide Updated, Undisturbed;
    }

    /** Moves the branch and records the new head, or only records the head. */
    method Advance(planned: Planned, head: Commit, behind: bool, baseline: Commit, context: RunContext)
      returns (entry: Entry)
      requires valid && IsAncestry(checkout.isAncestor) && checkout.isAncestor(planned.head, head)
      requires checkout.quiet ==> Obstacle(Now(), planned) == NoReason && checkout.ref == Some(head)
      requires checkout.Smooth() ==> (behind <==> head != baseline && checkout.isAncestor(head, baseline))
      requires if behind then checkout.isAncestor(head, baseline) else checkout.isAncestor(baseline, head)
      modifies this`file, this`fileMoves, this`publications, this`recoveries, this`recorded, this`lastSeen
      modifies checkout`ref, checkout`work, checkout`trace, context
      ensures old(context.canceled) ==> context.canceled
      ensures context.outputFailed == old(context.outputFailed) && context.handed == old(context.handed)
      ensures Worded(old(Now()), Now(), entry, planned, baseline, context.canceled)
      ensures Updated(old(Now()), Now(), entry, planned, baseline)
      ensures !context.canceled && Undisturbed(old(Now()), planned, baseline) ==> entry.status == Completed
    {
      hide Alternates, NewMoves, RefAlong, Went, MovedWell;
      if behind {
        entry := ForwardAndPublish(planned, head, baseline, context);
        ForwardMovedWell(old(Now()), Now(), planned, head, baseline);
      } else {
        entry := PublishUnchanged(planned, head, context);
        StillMovedWell(old(Now()), Now(), planned, baseline);
      }
    }

    /** What is done with a workspace that may be touched: nothing, only the record, or the branch and the record. */
    method UpdateBranch(planned: Planned, head: Commit, baseline: Commit, context: RunContext) returns (entry: Entry)
      requires valid && IsAncestry(checkout.isAncestor) && checkout.isAncestor(planned.head, head)
      requires checkout.quiet ==> Obstacle(Now(), planned) == NoReason && checkout.ref == Some(head)
      modifies this`file, this`fileMoves, this`publications, this`recoveries, this`recorded, this`lastSeen
      modifies checkout`ref, checkout`work, checkout`trace, context
      ensures old(context.canceled) ==> context.canceled
      ensures context.outputFailed == old(context.outputFailed) && context.handed == old(context.handed)
      ensures Worded(old(Now()), Now(), entry, planned, baseline, context.canceled)
      ensures Updated(old(Now()), Now(), entry, planned, baseline)
      ensures !context.canceled && Undisturbed(old(Now()), planned, baseline) ==> entry.status == Completed
    {
      hide Updated, Worded, CompletedWell, LeftAlone, MovedWell, CleanAt;
      entry := Entry(name, Some(planned.head), None, NoAction, Failed, Diverged);
      var behind: Option<bool> := Some(false);
      if head != baseline {
        behind := IsAncestor(head, baseline);
      }
      if behind.None? {
        RefusedWell(old(Now()), Now(), entry, planned, baseline, context.canceled);
        return;
      }
      var contains := IsAncestor(baseline, head);
      if contains.None? || (!behind.value && !contains.value) {
        RefusedWell(old(Now()), Now(), entry, planned, baseline, context.canceled);
        return;
      }
      hide Obstacle, Refusal;
      ghost var before := Now();
      entry := Advance(planned, head, behind.value, baseline, context);
      UpdatedAfterLook(old(Now()), before, Now(), entry, planned, baseline, context.canceled);
    }

    lemma ForwardMovedWell(before: Facts, after: Facts, planned: Planned, head: Commit, baseline: Commit)
      requires Went(before.trace, after.trace, head, baseline) && checkout.isAncestor(planned.head, head)
      requires after.trace.moves != before.trace.moves ==> head != baseline && checkout.isAncestor(head, baseline)
      requires checkout.exclusive || checkout.quiet ==>
                 RefAlong(before.ref, after.ref, NewMoves(before.trace, after.trace))
      ensures MovedWell(before, after, planned, baseline)
    {
    }

    lemma StillMovedWell(before: Facts, after: Facts, planned: Planned, baseline: Commit)
      requires after.trace == before.trace && after.ref == before.ref
      ensures MovedWell(before, after, planned, baseline)
    {
    }

    /**
     The update of one workspace. It ends completed, with branch and record at one head that contains both the
     baseline and the previously recorded head; or with both resources as they were found; or as rollback-incomplete
     with a recovery record attempted. The branch moves only if it was strictly behind.
    */
    method UpdateWorkspace(planned: Planned, baseline: Commit, context: RunContext) returns (entry: Entry)
      requires IsAncestry(checkout.isAncestor)
      modifies this`file, this`fileMoves, this`publications, this`recoveries, this`recorded, this`site
      modifies this`lastSeen, this`lateStarts, checkout`ref, checkout`work, checkout`trace, context
      ensures old(context.canceled) ==> context.canceled
      ensures context.outputFailed == old(context.outputFailed) && context.handed == old(context.handed)
      ensures Now().lateStarts == old(Now()).lateStarts + if old(context.canceled || context.outputFailed) then 1 else 0
      ensures Reported(old(Now()), Now(), entry, planned, baseline, context.canceled)
      ensures checkout.Smooth() && entry.status == Completed ==> Undisturbed(old(Now()), planned, baseline)
    {
      lateStarts := lateStarts + if context.canceled || context.outputFailed then 1 else 0;
      LateDoesNotMatter(old(Now()), Now(), planned);
      var reason, head := Preflight(planned);
      hide Obstacle, Refusal, CleanAt, Undisturbed, Updated, Worded, CompletedWell, LeftAlone, MovedWell;
      if reason != NoReason {
        entry := Entry(name, Some(planned.head), None, NoAction, Failed, reason);
        RefusedWell(old(Now()), Now(), entry, planned, baseline, context.canceled);
        return;
      }
      ghost var before := Now();
      entry := UpdateBranch(planned, head, baseline, context);
      UpdatedAfterLook(old(Now()), before, Now(), entry, planned, baseline, context.canceled);
    }

    lemma LateDoesNotMatter(before: Facts, now: Facts, planned: Planned)
      requires now == before.(lateStarts := now.lateStarts)
      ensures Obstacle(now, planned) == Obstacle(before, planned)
    {
    }

    /** A refused workspace is left alone, and could not have completed. */
    lemma RefusedWell(before: Facts, after: Facts, entry: Entry, planned: Planned, baseline: Commit, canceled: bool)
      requires entry == Entry(name, Some(planned.head), None, NoAction, Failed, entry.reason)
      requires entry.reason !in {NoReason, RollbackIncomplete, StatePublicationFailed} &&
               (entry.reason == InvalidState <==> !valid)
      requires after.trace == before.trace && after.fileMoves == before.fileMoves &&
               after.publications == before.publications &&
               after.recoveries == before.recoveries
      requires checkout.exclusive || checkout.quiet ==> after.ref == before.ref
      requires checkout.quiet ==>
                 after.work == before.work && after.file == before.file && after.recorded == before.recorded
      requires checkout.Smooth() ==>
                 var refusal := Refusal(before, planned, baseline);
                 refusal != NoReason &&
                 (entry.reason == refusal || (refusal == BranchMismatch && entry.reason == DetachedHead))
      ensures Worded(before, after, entry, planned, baseline, canceled)
      ensures Updated(before, after, entry, planned, baseline) && !Undisturbed(before, planned, baseline)
    {
    }

    /** Looking around before touching anything changes nothing that an entry speaks of. */
    lemma UpdatedAfterLook(before: Facts, looked: Facts, after: Facts, entry: Entry, planned: Planned,
                           baseline: Commit, canceled: bool)
      requires Updated(looked, after, entry, planned, baseline)
      requires Worded(looked, after, entry, planned, baseline, canceled)
      requires looked.trace == before.trace && looked.fileMoves == before.fileMoves &&
               looked.publications == before.publications &&
               looked.recoveries == before.recoveries
      requires checkout.exclusive || checkout.quiet ==> looked.ref == before.ref
      requires checkout.quiet ==> looked.work == before.work && looked.file == before.file
      requires checkout.quiet ==> looked.site == before.site && looked.recorded == before.recorded
      ensures Updated(before, after, entry, planned, baseline)
      ensures Worded(before, after, entry, planned, baseline, canceled)
      ensures Undisturbed(before, planned, baseline) <==> Undisturbed(looked, planned, baseline)
      ensures checkout.Smooth() && entry.status == Completed ==> Undisturbed(before, planned, baseline)
    {
      SameUndisturbed(before, looked, planned, baseline);
      hide Refusal, Undisturbed, Alternates, NewMoves, MovedBy, RefAlong;
    }

    lemma SameUndisturbed(before: Facts, looked: Facts, planned: Planned, baseline: Commit)
      requires checkout.quiet ==> looked.ref == before.ref && looked.work == before.work && looked.file == before.file
      requires checkout.quiet ==> looked.site == before.site && looked.recorded == before.recorded
      ensures Undisturbed(before, planned, baseline) <==> Undisturbed(looked, planned, baseline)
      ensures checkout.quiet ==> Obstacle(before, planned) == Obstacle(looked, planned)
      ensures checkout.quiet ==> Refusal(before, planned, baseline) == Refusal(looked, planned, baseline)
    {
      if checkout.quiet {
        assert Obstacle(before, planned) == Obstacle(looked, planned);
        hide Obstacle;
      }
    }

    /**
     Updating twice with the same target. After a completed first run, a second run moves no branch and, when it
     completes, reports the same head; undisturbed it does complete.
    */
    method UpdateTwice(planned: Planned, baseline: Commit, context: RunContext) returns (first: Entry, second: Entry)
      requires checkout.quiet
      requires IsAncestry(checkout.isAncestor) && IsAntisymmetric(checkout.isAncestor)
      modifies this`file, this`fileMoves, this`publications, this`recoveries, this`recorded, this`site
      modifies this`lastSeen, this`lateStarts, checkout`ref, checkout`work, checkout`trace, context
      ensures first.status == Completed ==>
        && first.resultingHead.Some? && checkout.ref == first.resultingHead
        && |checkout.trace.moves| == |old(checkout.trace).moves| + if first.action == FastForwarded then 1 else 0
      ensures first.status == Completed && second.status == Completed ==>
        second.resultingHead == first.resultingHead && file == Some(encode(first.resultingHead.value))
      ensures checkout.Smooth() && !context.canceled && first.status == Completed ==> second.status == Completed
    {
      first := UpdateWorkspace(planned, baseline, context);
      second := first;
      if first.status == Completed {
        var head := first.resultingHead.value;
        second := UpdateWorkspace(Planned(encode(head), head), baseline, context);
      }
    }

    /** A workspace that was left rollback-incomplete does not complete again while its recovery record exists. */
    method UpdateAfterRollback(planned: Planned, again: Planned, baseline: Commit, context: RunContext)
      returns (first: Entry, second: Entry, written: bool)
      requires checkout.quiet && IsAncestry(checkout.isAncestor)
      modifies this`file, this`fileMoves, this`publications, this`recoveries, this`recorded, this`site
      modifies this`lastSeen, this`lateStarts, checkout`ref, checkout`work, checkout`trace, context
      ensures first.reason == RollbackIncomplete ==> recoveries > old(recoveries) && (checkout.Smooth() ==> written)
      ensures written ==> second.status != Completed && recorded
    {
      hide MovedWell;
      first := UpdateWorkspace(planned, baseline, context);
      written := recorded;
      second := UpdateWorkspace(again, baseline, context);
    }
  }
}
