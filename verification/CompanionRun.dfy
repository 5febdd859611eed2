/**
 The run over all companion workspaces, after the baseline has settled
 (internal/service/companion_update.go:863-939).
*/
module CompanionRun {
  import opened Options
  import opened GitBranch
  import opened Companion

  // ----- entries

  /** The workspaces of a run that get an entry: not the owner of the baseline, and not a known removed one. */
  predicate Selected(w: Workspace, baselineOwner: string) {
    w.id != baselineOwner && (!w.valid || w.present)
  }

  function SelectedNames(states: seq<Workspace>, baselineOwner: string): seq<string> {
    if states == [] then []
    else (if Selected(states[0], baselineOwner) then [states[0].name] else []) +
         SelectedNames(states[1..], baselineOwner)
  }

  function EntryNames(entries: seq<Entry>): seq<string> {
    seq(|entries|, i requires 0 <= i < |entries| => entries[i].workspace)
  }

  lemma {:induction false} SelectedSplit(states: seq<Workspace>, k: nat, baselineOwner: string)
    requires k <= |states|
    ensures SelectedNames(states[..k], baselineOwner) + SelectedNames(states[k..], baselineOwner) ==
            SelectedNames(states, baselineOwner)
  {
    if k != 0 {
      SelectedSplit(states[1..], k - 1, baselineOwner);
      assert states[1..][..k - 1] == states[..k][1..] && states[1..][k - 1..] == states[k..];
    } else {
      assert states[..0] == [] && states[0..] == states;
    }
  }

  lemma SelectedOne(states: seq<Workspace>, k: nat, baselineOwner: string)
    requires k < |states|
    ensures SelectedNames(states[..k + 1], baselineOwner) ==
            SelectedNames(states[..k], baselineOwner) +
            if Selected(states[k], baselineOwner) then [states[k].name] else []
  {
    SelectedSplit(states[..k + 1], k, baselineOwner);
    assert states[..k + 1][..k] == states[..k] && states[..k + 1][k..] == [states[k]];
    assert SelectedNames([states[k]], baselineOwner) ==
           if Selected(states[k], baselineOwner) then [states[k].name] else [];
  }

  /** Entries for workspaces the run no longer touches: canceled, or failed for an unreadable record. */
  function CanceledEntries(states: seq<Workspace>, planned: seq<Planned>, baselineOwner: string): (entries: seq<Entry>)
    requires |states| == |planned|
  {
    if states == [] then []
    else
      var rest := CanceledEntries(states[1..], planned[1..], baselineOwner);
      var w := states[0];
      if w.id == baselineOwner then rest
      else if !w.valid then [Entry(w.name, None, None, NoAction, Failed, InvalidState)] + rest
      else if !w.present then rest
      else [Entry(w.name, Some(planned[0].head), None, NoAction, CanceledStatus, NoReason)] + rest
  }

  /** The canceled entries are exactly one per selected workspace, in order, and none of them completed. */
  lemma {:induction false} CanceledEntriesSettle(states: seq<Workspace>, planned: seq<Planned>, baselineOwner: string)
    requires |states| == |planned|
    ensures EntryNames(CanceledEntries(states, planned, baselineOwner)) == SelectedNames(states, baselineOwner)
    ensures forall e | e in CanceledEntries(states, planned, baselineOwner) ::
              e.status != Completed && e.action == NoAction
  {
    if states != [] {
      CanceledEntriesSettle(states[1..], planned[1..], baselineOwner);
      var rest := CanceledEntries(states[1..], planned[1..], baselineOwner);
      forall e: Entry
        ensures EntryNames([e] + rest) == [e.workspace] + EntryNames(rest)
      {
      }
    }
  }

  /** The workspaces of a run and their checkouts are different ones. */
  ghost predicate SeparateWorkspaces(states: seq<Workspace>) {
    && (forall i, j | 0 <= i < j < |states| :: states[i] != states[j])
    && (forall i, j | 0 <= i < j < |states| :: states[i].checkout != states[j].checkout)
  }

  lemma NamesGrow(entries: seq<Entry>, more: seq<Entry>)
    requires entries != []
    ensures EntryNames((entries + more)[1..]) == EntryNames(entries[1..]) + EntryNames(more)
  {
  }

  /** The entries of a run after the first k workspaces. */
  ghost predicate Settled(entries: seq<Entry>, baseline: Entry, states: seq<Workspace>, k: nat, baselineOwner: string,
                          completed: bool)
    requires k <= |states|
  {
    && entries != [] && entries[0] == baseline
    && EntryNames(entries[1..]) == SelectedNames(states[..k], baselineOwner)
    && (completed ==> forall e | e in entries :: e.status == Completed)
  }

  /** Canceling the rest settles the whole run. */
  lemma SettledByCanceling(entries: seq<Entry>, baseline: Entry, states: seq<Workspace>,
                           planned: seq<Planned>, k: nat, baselineOwner: string, completed: bool)
    requires |states| == |planned| && k <= |states|
    requires Settled(entries, baseline, states, k, baselineOwner, completed)
    ensures Settled(entries + CanceledEntries(states[k..], planned[k..], baselineOwner), baseline, states, |states|,
                    baselineOwner, false)
  {
    CanceledEntriesSettle(states[k..], planned[k..], baselineOwner);
    NamesGrow(entries, CanceledEntries(states[k..], planned[k..], baselineOwner));
    SelectedSplit(states, k, baselineOwner);
    assert states[..|states|] == states;
  }

  /** What an entry says of a workspace that the run never came to. */
  predicate NotReached(w: Workspace, planned: Planned, entry: Entry) {
    && entry.workspace == w.name && entry.action == NoAction && entry.resultingHead == None
    && (w.valid ==>
          entry.status == CanceledStatus && entry.reason == NoReason && entry.previousHead == Some(planned.head))
    && (!w.valid ==> entry.status == Failed && entry.reason == InvalidState && entry.previousHead == None)
  }

  /** Each workspace finds its own canceled entry, in the place where it stands among the selected ones. */
  lemma {:induction false} CanceledEntryAt(states: seq<Workspace>, planned: seq<Planned>, k: nat, baselineOwner: string)
    requires k < |states| == |planned| && Selected(states[k], baselineOwner)
    ensures var i, entries := Position(states, k, baselineOwner), CanceledEntries(states, planned, baselineOwner);
            i < |entries| && NotReached(states[k], planned[k], entries[i])
  {
    if k > 0 {
      CanceledEntryAt(states[1..], planned[1..], k - 1, baselineOwner);
      assert states[..k][1..] == states[1..][..k - 1];
    }
  }

  /** The same for a run that was stopped at some workspace. */
  lemma CanceledEntryBehind(states: seq<Workspace>, planned: seq<Planned>, baseline: Entry, done: seq<Entry>,
                            stop: nat, k: nat, baselineOwner: string)
    requires stop <= k < |states| == |planned| && Selected(states[k], baselineOwner)
    requires EntryNames(done) == SelectedNames(states[..stop], baselineOwner)
    ensures var i := 1 + Position(states, k, baselineOwner);
            var entries := [baseline] + done + CanceledEntries(states[stop..], planned[stop..], baselineOwner);
            i < |entries| && NotReached(states[k], planned[k], entries[i])
  {
    CanceledEntryAt(states[stop..], planned[stop..], k - stop, baselineOwner);
    SelectedSplit(states[..k], stop, baselineOwner);
    assert states[..k][..stop] == states[..stop] && states[..k][stop..] == states[stop..][..k - stop];
    assert |EntryNames(done)| == |done|;
    hide CanceledEntries, NotReached;
  }

  // ----- what a run says of its workspaces

  /** Where the entry of the k-th workspace stands among those of the workspaces that were updated. */
  function Position(states: seq<Workspace>, k: nat, baselineOwner: string): nat
    requires k <= |states|
  {
    |SelectedNames(states[..k], baselineOwner)|
  }

  /**
   The k-th workspace was updated as its entry says, and completed if nothing disturbed it; one without an entry was not
   touched. No update was begun too late.
  */
  ghost predicate Told(states: seq<Workspace>, before: Facts, after: Facts, done: seq<Entry>, k: nat, planned: Planned,
                       baselineOwner: string, target: Commit, canceled: bool)
    requires k < |states|
  {
    && after.lateStarts == before.lateStarts
    && if Selected(states[k], baselineOwner) then
         && Position(states, k, baselineOwner) < |done|
         && var entry := done[Position(states, k, baselineOwner)];
         && states[k].Reported(before, after, entry, planned, target, canceled)
       else after == before
  }

  /** The entries of the workspaces that were updated, and why nothing came after them. */
  ghost predicate Ended(done: seq<Entry>, states: seq<Workspace>, stop: nat, stopped: bool, baselineOwner: string) {
    && stop <= |states| && (!stopped ==> stop == |states|)
    && EntryNames(done) == SelectedNames(states[..stop], baselineOwner)
    && forall i | 0 <= i < |done| && done[i].reason == RollbackIncomplete ::
         stopped && i == |done| - 1 && stop > 0 && Selected(states[stop - 1], baselineOwner)
  }

  /** The entries after the first k workspaces, none of which stopped the run. */
  ghost predicate GoingOn(done: seq<Entry>, states: seq<Workspace>, k: nat, baselineOwner: string) {
    && k <= |states|
    && EntryNames(done) == SelectedNames(states[..k], baselineOwner)
    && forall e | e in done :: e.reason != RollbackIncomplete
  }

  lemma GoesOnFirst(states: seq<Workspace>, baselineOwner: string)
    ensures GoingOn([], states, 0, baselineOwner)
  {
    assert states[..0] == [];
  }

  lemma GoesOnSkip(done: seq<Entry>, states: seq<Workspace>, k: nat, baselineOwner: string)
    requires k < |states| && GoingOn(done, states, k, baselineOwner) && !Selected(states[k], baselineOwner)
    ensures GoingOn(done, states, k + 1, baselineOwner)
  {
    SelectedOne(states, k, baselineOwner);
  }

  /** One more entry: the run goes on, or ends there. */
  lemma GoesOnMore(done: seq<Entry>, states: seq<Workspace>, k: nat, baselineOwner: string, e: Entry)
    requires k < |states| && GoingOn(done, states, k, baselineOwner) && Selected(states[k], baselineOwner)
    requires e.workspace == states[k].name
    ensures Position(states, k, baselineOwner) == |done|
    ensures e.reason != RollbackIncomplete ==> GoingOn(done + [e], states, k + 1, baselineOwner)
    ensures Ended(done + [e], states, k + 1, true, baselineOwner)
  {
    SelectedOne(states, k, baselineOwner);
    assert EntryNames(done + [e]) == EntryNames(done) + [e.workspace];
    forall i | 0 <= i < |done|
      ensures (done + [e])[i].reason != RollbackIncomplete
    {
      assert (done + [e])[i] == done[i] && done[i] in done;
    }
  }

  lemma GoingOnEnds(done: seq<Entry>, states: seq<Workspace>, k: nat, stopped: bool, baselineOwner: string)
    requires GoingOn(done, states, k, baselineOwner) && (stopped || k == |states|)
    ensures Ended(done, states, k, stopped, baselineOwner)
  {
    assert forall i | 0 <= i < |done| :: done[i] in done;
  }

  /** Everything that was done to the first n workspaces is told. */
  ghost predicate ToldUpTo(states: seq<Workspace>, before: seq<Facts>, after: seq<Facts>, done: seq<Entry>, n: nat,
                           planned: seq<Planned>, baselineOwner: string, target: Commit, canceled: bool)
  {
    && n <= |states| == |planned| == |before| == |after|
    && (forall k | 0 <= k < n ::
        Told(states, before[k], after[k], done, k, planned[k], baselineOwner, target, canceled))
    && (forall k | n <= k < |states| :: after[k] == before[k])
  }

  lemma ToldLater(states: seq<Workspace>, before: Facts, after: Facts, done: seq<Entry>, k: nat, planned: Planned,
                  baselineOwner: string, target: Commit, was: bool, canceled: bool)
    requires k < |states| && Told(states, before, after, done, k, planned, baselineOwner, target, was)
    requires was ==> canceled
    ensures Told(states, before, after, done, k, planned, baselineOwner, target, canceled)
  {
    hide Workspace.Reported;
    if Selected(states[k], baselineOwner) {
      states[k].ReportedStill(before, after, done[Position(states, k, baselineOwner)], planned, target, was, canceled);
    }
  }

  /** One more turn: the workspace was not touched, or was updated as the new entry says. */
  lemma ToldMore(states: seq<Workspace>, before: seq<Facts>, now: seq<Facts>, after: Facts,
                 done: seq<Entry>, more: seq<Entry>, n: nat, planned: seq<Planned>,
                 baselineOwner: string, target: Commit, was: bool, canceled: bool)
    requires ToldUpTo(states, before, now, done, n, planned, baselineOwner, target, was) && n < |states|
    requires (was ==> canceled) && after.lateStarts == now[n].lateStarts
    requires if Selected(states[n], baselineOwner) then
               && |more| == 1 && Position(states, n, baselineOwner) == |done|
               && states[n].Reported(now[n], after, more[0], planned[n], target, canceled)
             else after == now[n]
    ensures ToldUpTo(states, before, now[n := after], done + more, n + 1, planned, baselineOwner, target, canceled)
  {
    hide Position, Workspace.Reported, Selected;
    forall k | 0 <= k < n + 1
      ensures Told(states, before[k], now[n := after][k], done + more, k, planned[k], baselineOwner, target, canceled)
    {
      if k < n {
        assert Told(states, before[k], now[k], done, k, planned[k], baselineOwner, target, was);
        ToldLater(states, before[k], now[k], done, k, planned[k], baselineOwner, target, was, canceled);
      }
    }
  }

  lemma ToldStill(states: seq<Workspace>, before: seq<Facts>, now: seq<Facts>, done: seq<Entry>, n: nat,
                  planned: seq<Planned>, baselineOwner: string, target: Commit, was: bool, canceled: bool)
    requires ToldUpTo(states, before, now, done, n, planned, baselineOwner, target, was) && (was ==> canceled)
    ensures ToldUpTo(states, before, now, done, n, planned, baselineOwner, target, canceled)
  {
    hide Position, Workspace.Reported, Selected;
    forall k | 0 <= k < n
      ensures Told(states, before[k], now[k], done, k, planned[k], baselineOwner, target, canceled)
    {
      ToldLater(states, before[k], now[k], done, k, planned[k], baselineOwner, target, was, canceled);
    }
  }

  /** An undisturbed run that is not canceled completes every entry. */
  lemma AllComplete(states: seq<Workspace>, before: seq<Facts>, now: seq<Facts>, done: seq<Entry>,
                    n: nat, planned: seq<Planned>, baselineOwner: string, target: Commit)
    requires ToldUpTo(states, before, now, done, n, planned, baselineOwner, target, false)
    requires EntryNames(done) == SelectedNames(states[..n], baselineOwner)
    requires forall k | 0 <= k < n && Selected(states[k], baselineOwner) ::
               states[k].Undisturbed(before[k], planned[k], target)
    ensures forall e | e in done :: e.status == Completed && e.reason == NoReason
  {
    hide Workspace.Undisturbed, Workspace.LeftAlone, Workspace.MovedWell;
    forall i | 0 <= i < |done|
      ensures done[i].status == Completed && done[i].reason == NoReason
    {
      var k := WorkspaceAt(states, n, i, baselineOwner);
      assert Told(states, before[k], now[k], done, k, planned[k], baselineOwner, target, false);
    }
  }

  /** Every position belongs to a workspace. */
  lemma {:induction false} WorkspaceAt(states: seq<Workspace>, n: nat, i: nat, baselineOwner: string) returns (k: nat)
    requires n <= |states| && i < Position(states, n, baselineOwner)
    ensures k < n && Selected(states[k], baselineOwner) && Position(states, k, baselineOwner) == i
  {
    k := n - 1;
    SelectedOne(states, n - 1, baselineOwner);
    if i < Position(states, n - 1, baselineOwner) {
      k := WorkspaceAt(states, n - 1, i, baselineOwner);
    }
  }

  /** A run that ended, early or not, has settled every selected workspace. */
  lemma EndedIsSettled(done: seq<Entry>, states: seq<Workspace>, planned: seq<Planned>, stop: nat,
                       stopped: bool, baselineOwner: string, baseline: Entry)
    requires |states| == |planned| && Ended(done, states, stop, stopped, baselineOwner) && baseline.status == Completed
    ensures var rest := if stopped then CanceledEntries(states[stop..], planned[stop..], baselineOwner) else [];
            Settled([baseline] + done + rest, baseline, states, |states|, baselineOwner,
                    !stopped && forall e | e in done :: e.status == Completed)
  {
    var entries := [baseline] + done;
    assert entries[1..] == done;
    var all := forall e | e in done :: e.status == Completed;
    if stopped {
      assert Settled(entries, baseline, states, stop, baselineOwner, false);
      hide Ended, Settled, CanceledEntries;
      SettledByCanceling(entries, baseline, states, planned, stop, baselineOwner, false);
    } else {
      assert states[..stop] == states && entries + [] == entries;
      assert Settled(entries, baseline, states, |states|, baselineOwner, all);
    }
  }

  /** Every selected workspace can be brought to the target, and nothing disturbs its update. */
  ghost predicate AllUndisturbed(states: seq<Workspace>, before: seq<Facts>, planned: seq<Planned>,
                                 baselineOwner: string, target: Commit)
    requires |states| == |before| == |planned|
  {
    forall k | 0 <= k < |states| && Selected(states[k], baselineOwner) ::
      states[k].Undisturbed(before[k], planned[k], target)
  }

  /** The run has come to the k-th workspace. */
  ghost predicate Running(states: seq<Workspace>, before: seq<Facts>, now: seq<Facts>, done: seq<Entry>, k: nat,
                          planned: seq<Planned>, baselineOwner: string, target: Commit, canceled: bool, completed: bool)
  {
    && GoingOn(done, states, k, baselineOwner)
    && ToldUpTo(states, before, now, done, k, planned, baselineOwner, target, canceled)
    && (completed <==> forall e | e in done :: e.status == Completed)
  }

  /** The run has ended. */
  ghost predicate Over(states: seq<Workspace>, before: seq<Facts>, now: seq<Facts>, done: seq<Entry>, stop: nat,
                       stopped: bool, planned: seq<Planned>, baselineOwner: string, target: Commit, canceled: bool)
  {
    && Ended(done, states, stop, stopped, baselineOwner)
    && ToldUpTo(states, before, now, done, stop, planned, baselineOwner, target, canceled)
  }

  lemma RunBegins(states: seq<Workspace>, before: seq<Facts>, planned: seq<Planned>,
                  baselineOwner: string, target: Commit, canceled: bool)
    requires |states| == |planned| == |before|
    ensures Running(states, before, before, [], 0, planned, baselineOwner, target, canceled, true)
  {
    GoesOnFirst(states, baselineOwner);
  }

  lemma RunSkips(states: seq<Workspace>, before: seq<Facts>, now: seq<Facts>, done: seq<Entry>, k: nat,
                 planned: seq<Planned>, baselineOwner: string, target: Commit, was: bool, canceled: bool,
                 completed: bool)
    requires Running(states, before, now, done, k, planned, baselineOwner, target, was, completed) && (was ==> canceled)
    requires k < |states| && !Selected(states[k], baselineOwner)
    ensures Running(states, before, now, done, k + 1, planned, baselineOwner, target, canceled, completed)
  {
    assert |now| == |states|;
    assert done + [] == done && now[k := now[k]] == now;
    hide GoingOn, ToldUpTo;
    GoesOnSkip(done, states, k, baselineOwner);
    ToldMore(states, before, now, now[k], done, [], k, planned, baselineOwner, target, was, canceled);
  }

  lemma RunTakes(states: seq<Workspace>, before: seq<Facts>, now: seq<Facts>, after: Facts,
                 done: seq<Entry>, entry: Entry, k: nat, planned: seq<Planned>, baselineOwner: string,
                 target: Commit, was: bool, canceled: bool, completed: bool)
    requires Running(states, before, now, done, k, planned, baselineOwner, target, was, completed) && (was ==> canceled)
    requires k < |states| == |planned| == |now| && Selected(states[k], baselineOwner)
    requires after.lateStarts == now[k].lateStarts
    requires states[k].Reported(now[k], after, entry, planned[k], target, canceled)
    ensures entry.reason != RollbackIncomplete ==>
              Running(states, before, now[k := after], done + [entry], k + 1, planned, baselineOwner, target, canceled,
                      completed && entry.status == Completed)
    ensures Over(states, before, now[k := after], done + [entry], k + 1, true, planned, baselineOwner, target, canceled)
    ensures completed && entry.status == Completed <==> forall e | e in done + [entry] :: e.status == Completed
  {
    assert entry.workspace == states[k].name;
    hide GoingOn, ToldUpTo, Ended, Position, Workspace.Reported, Selected;
    GoesOnMore(done, states, k, baselineOwner, entry);
    ToldMore(states, before, now, after, done, [entry], k, planned, baselineOwner, target, was, canceled);
    assert forall e :: e in done + [entry] <==> e in done || e == entry;
  }

  lemma RunHalts(states: seq<Workspace>, before: seq<Facts>, now: seq<Facts>, done: seq<Entry>, k: nat,
                 stopped: bool, planned: seq<Planned>, baselineOwner: string, target: Commit, was: bool,
                 canceled: bool, completed: bool)
    requires Running(states, before, now, done, k, planned, baselineOwner, target, was, completed) && (was ==> canceled)
    requires stopped || k == |states|
    ensures Over(states, before, now, done, k, stopped, planned, baselineOwner, target, canceled)
    ensures completed <==> forall e | e in done :: e.status == Completed
  {
    hide GoingOn, ToldUpTo, Ended;
    GoingOnEnds(done, states, k, stopped, baselineOwner);
    ToldStill(states, before, now, done, k, planned, baselineOwner, target, was, canceled);
  }

  /** What a turn of the run did: nothing, nothing because of a cancellation, or an update. */
  datatype Turn = Skipped | CanceledFirst | Taken(entry: Entry, goOn: bool)

  /** The facts are those of the workspaces as they are now. */
  ghost predicate FactsAre(states: seq<Workspace>, facts: seq<Facts>)
    reads set w | w in states :: w
    reads set w | w in states :: w.checkout
  {
    |facts| == |states| && forall k | 0 <= k < |states| :: facts[k] == states[k].Now()
  }

  ghost function FactsFrom(states: seq<Workspace>, k: nat): (facts: seq<Facts>)
    requires k <= |states|
    reads set w | w in states :: w
    reads set w | w in states :: w.checkout
    ensures |facts| == |states| - k && forall j | 0 <= j < |facts| :: facts[j] == states[k + j].Now()
    decreases |states| - k
  {
    if k == |states| then [] else [states[k].Now()] + FactsFrom(states, k + 1)
  }

  /** What one turn says of its workspace. */
  ghost predicate Turned(w: Workspace, before: Facts, after: Facts, turn: Turn, planned: Planned, baselineOwner: string,
                         target: Commit, canceled: bool, outputFailed: bool)
  {
    && after.lateStarts == before.lateStarts
    && (turn.Skipped? <==> !Selected(w, baselineOwner))
    && (!turn.Taken? ==> after == before)
    && (turn.CanceledFirst? ==> canceled)
    && (turn.Taken? ==>
          && w.Reported(before, after, turn.entry, planned, target, canceled)
          && (turn.goOn ==> turn.entry.reason != RollbackIncomplete)
          && (!turn.goOn ==> canceled || outputFailed || turn.entry.reason == RollbackIncomplete))
  }

  /** One turn of the run. It leaves the other workspaces alone. */
  method TakeTurn(states: seq<Workspace>, planned: seq<Planned>, k: nat, baselineOwner: string, target: Commit,
                  context: RunContext, ghost now: seq<Facts>)
    returns (turn: Turn, ghost after: Facts)
    requires k < |states| == |planned| == |now| && SeparateWorkspaces(states) &&
             IsAncestry(states[k].checkout.isAncestor)
    requires !context.outputFailed && FactsAre(states, now)
    modifies states[k], states[k].checkout, context
    ensures old(context.canceled) ==> context.canceled
    ensures FactsAre(states, now[k := after])
    ensures Turned(states[k], now[k], after, turn, planned[k], baselineOwner, target, context.canceled,
                   context.outputFailed)
    ensures !Stops(turn) ==> !context.outputFailed
    ensures turn.Taken? && turn.goOn ==> turn.entry.reason != RollbackIncomplete
    ensures context.handed == old(context.handed) + HandedBy(turn)
  {
    hide Workspace.Reported, Workspace.Now;
    var w := states[k];
    after := now[k];
    if w.id == baselineOwner || (w.valid && !w.present) {
      return Skipped, after;
    }
    var canceled := context.Canceled();
    if canceled {
      return CanceledFirst, after;
    }
    var entry := w.UpdateWorkspace(planned[k], target, context);
    after := w.Now();
    if entry.reason == RollbackIncomplete {
      return Taken(entry, false), after;
    }
    var shown := context.Progress(entry);
    if !shown {
      return Taken(entry, false), after;
    }
    ghost var was := context.canceled;
    canceled := context.Canceled();
    w.ReportedStill(now[k], after, entry, planned[k], target, was, context.canceled);
    return Taken(entry, !canceled), after;
  }

  /** Why a run ended early. */
  ghost predicate Excused(canceled: bool, outputFailed: bool, done: seq<Entry>) {
    canceled || outputFailed || (done != [] && done[|done| - 1].reason == RollbackIncomplete)
  }

  /** The entries of a run: the baseline, the workspaces that were updated, and the rest if it was stopped. */
  ghost predicate Lists(entries: seq<Entry>, baseline: Entry, done: seq<Entry>, stop: nat, stopped: bool,
                        states: seq<Workspace>, planned: seq<Planned>, baselineOwner: string)
  {
    && stop <= |states| == |planned|
    && entries == [baseline] + done +
                  (if stopped then CanceledEntries(states[stop..], planned[stop..], baselineOwner) else [])
  }

  /** How a run ended, on the states of the workspaces before and after it. */
  ghost predicate Finished(states: seq<Workspace>, before: seq<Facts>, now: seq<Facts>, planned: seq<Planned>,
                           baselineOwner: string, baseline: Entry, target: Commit, entries: seq<Entry>, completed: bool,
                           done: seq<Entry>, stop: nat, stopped: bool, canceled: bool, outputFailed: bool)
  {
    && Over(states, before, now, done, stop, stopped, planned, baselineOwner, target, canceled)
    && Lists(entries, baseline, done, stop, stopped, states, planned, baselineOwner)
    && (stopped ==> Excused(canceled, outputFailed, done))
    && (outputFailed ==> stopped)
    && (completed <==> !stopped && forall e | e in done :: e.status == Completed)
  }

  /** The run has been stopped before the k-th workspace. */
  ghost predicate Halted(states: seq<Workspace>, before: seq<Facts>, now: seq<Facts>, done: seq<Entry>, k: nat,
                         planned: seq<Planned>, baselineOwner: string, target: Commit, canceled: bool,
                         outputFailed: bool)
  {
    && k <= |states| == |planned|
    && Over(states, before, now, done, k, true, planned, baselineOwner, target, canceled)
    && Excused(canceled, outputFailed, done)
  }

  lemma HaltsBefore(states: seq<Workspace>, before: seq<Facts>, now: seq<Facts>, done: seq<Entry>, k: nat,
                    planned: seq<Planned>, baselineOwner: string, target: Commit, was: bool,
                    canceled: bool, outputFailed: bool, completed: bool)
    requires Running(states, before, now, done, k, planned, baselineOwner, target, was, completed) && (was ==> canceled)
    requires k <= |states| == |planned| && (canceled || outputFailed)
    ensures Halted(states, before, now, done, k, planned, baselineOwner, target, canceled, outputFailed)
  {
    hide Running, Over;
    RunHalts(states, before, now, done, k, true, planned, baselineOwner, target, was, canceled, completed);
  }

  /** The canceled entries finish a run that was stopped. */
  lemma HaltedFinishes(states: seq<Workspace>, before: seq<Facts>, now: seq<Facts>, done: seq<Entry>,
                       k: nat, planned: seq<Planned>, baselineOwner: string, baseline: Entry,
                       target: Commit, canceled: bool, outputFailed: bool)
    requires Halted(states, before, now, done, k, planned, baselineOwner, target, canceled, outputFailed)
    ensures k <= |states| == |planned|
    ensures Finished(states, before, now, planned, baselineOwner, baseline, target,
                     [baseline] + done + CanceledEntries(states[k..], planned[k..], baselineOwner), false, done, k,
                     true, canceled, outputFailed)
  {
    hide CanceledEntries, Over, Excused;
  }

  lemma RunFinishes(states: seq<Workspace>, before: seq<Facts>, now: seq<Facts>, done: seq<Entry>,
                    planned: seq<Planned>, baselineOwner: string, baseline: Entry, target: Commit,
                    canceled: bool, completed: bool)
    requires Running(states, before, now, done, |states|, planned, baselineOwner, target, canceled, completed)
    requires |states| == |planned|
    ensures Finished(states, before, now, planned, baselineOwner, baseline, target, [baseline] + done, completed, done,
                     |states|, false, canceled, false)
  {
    hide Running, CanceledEntries, Over;
    RunHalts(states, before, now, done, |states|, false, planned, baselineOwner, target, canceled, canceled, completed);
    assert [baseline] + done + [] == [baseline] + done;
  }

  /** What a run that ended says, in full. */
  lemma FinishedSays(states: seq<Workspace>, before: seq<Facts>, now: seq<Facts>, planned: seq<Planned>,
                     baselineOwner: string, baseline: Entry, target: Commit, entries: seq<Entry>,
                     completed: bool, done: seq<Entry>, stop: nat, stopped: bool, canceled: bool,
                     outputFailed: bool)
    requires Finished(states, before, now, planned, baselineOwner, baseline, target, entries, completed, done, stop,
                      stopped, canceled, outputFailed)
    requires baseline.status == Completed
    ensures stop <= |states| == |planned| == |before| == |now|
    ensures Settled(entries, baseline, states, |states|, baselineOwner, completed)
    ensures Ended(done, states, stop, stopped, baselineOwner)
    ensures Lists(entries, baseline, done, stop, stopped, states, planned, baselineOwner)
    ensures (stopped ==> Excused(canceled, outputFailed, done)) && (outputFailed ==> stopped)
    ensures completed <==> !stopped && forall e | e in done :: e.status == Completed
    ensures forall k | 0 <= k < stop ::
              Told(states, before[k], now[k], done, k, planned[k], baselineOwner, target, canceled)
    ensures forall k | stop <= k < |states| :: now[k] == before[k]
    ensures forall k | stop <= k < |states| && Selected(states[k], baselineOwner) ::
              var i := 1 + Position(states, k, baselineOwner);
              i < |entries| && NotReached(states[k], planned[k], entries[i])
    ensures !canceled && !outputFailed &&
            (forall k | 0 <= k < |states| && Selected(states[k], baselineOwner) ::
               states[k].Undisturbed(before[k], planned[k], target)) ==>
      completed
  {
    assert (forall k | 0 <= k < |states| && Selected(states[k], baselineOwner) ::
              states[k].Undisturbed(before[k], planned[k], target)) ==>
        AllUndisturbed(states, before, planned, baselineOwner, target);
    assert stop <= |states| && EntryNames(done) == SelectedNames(states[..stop], baselineOwner);
    assert forall k | 0 <= k < stop ::
        Told(states, before[k], now[k], done, k, planned[k], baselineOwner, target, canceled);
    hide Told, Settled, CanceledEntries, Ended, ToldUpTo, AllUndisturbed, NotReached, Position, Selected;
    forall k | stop <= k < |states| && Selected(states[k], baselineOwner)
      ensures 1 + Position(states, k, baselineOwner) < |entries|
      ensures NotReached(states[k], planned[k], entries[1 + Position(states, k, baselineOwner)])
    {
      CanceledEntryBehind(states, planned, baseline, done, stop, k, baselineOwner);
    }
    EndedIsSettled(done, states, planned, stop, stopped, baselineOwner, baseline);
    if !canceled && !outputFailed && AllUndisturbed(states, before, planned, baselineOwner, target) {
      UndisturbedComplete(states, before, now, done, stop, planned, baselineOwner, target);
      assert done != [] ==> done[|done| - 1] in done;
    }
  }

  lemma UndisturbedComplete(states: seq<Workspace>, before: seq<Facts>, now: seq<Facts>,
                            done: seq<Entry>, stop: nat, planned: seq<Planned>, baselineOwner: string,
                            target: Commit)
    requires ToldUpTo(states, before, now, done, stop, planned, baselineOwner, target, false)
    requires |states| == |planned| == |before|
    requires EntryNames(done) == SelectedNames(states[..stop], baselineOwner)
    requires AllUndisturbed(states, before, planned, baselineOwner, target)
    ensures forall e | e in done :: e.status == Completed && e.reason == NoReason
  {
    hide Told, Workspace.Undisturbed;
    AllComplete(states, before, now, done, stop, planned, baselineOwner, target);
  }

  // ----- what a turn adds

  function EntriesOf(turn: Turn): seq<Entry> {
    if turn.Taken? then [turn.entry] else []
  }

  /** The entries of a turn that are handed over: not one that is left rollback-incomplete. */
  function HandedBy(turn: Turn): seq<Entry> {
    if turn.Taken? && turn.entry.reason != RollbackIncomplete then [turn.entry] else []
  }

  function Handed(done: seq<Entry>): seq<Entry> {
    if done != [] && done[|done| - 1].reason == RollbackIncomplete then done[..|done| - 1] else done
  }

  /** All entries are handed over but one that is left rollback-incomplete. */
  lemma HandedSays(baseline: Entry, done: seq<Entry>, states: seq<Workspace>, stop: nat, stopped: bool,
                   baselineOwner: string)
    requires baseline.reason == NoReason && Ended(done, states, stop, stopped, baselineOwner)
    ensures var handed := [baseline] + Handed(done);
            && (forall e | e in handed :: e.reason != RollbackIncomplete)
            && forall i | 0 <= i < |done| && done[i].reason != RollbackIncomplete ::
                 1 + i < |handed| && handed[1 + i] == done[i]
  {
    hide EntryNames, SelectedNames, Selected;
    forall e | e in Handed(done)
      ensures e.reason != RollbackIncomplete
    {
      var i :| 0 <= i < |Handed(done)| && Handed(done)[i] == e;
      assert done[i] == e;
    }
  }

  predicate Stops(turn: Turn) {
    turn.CanceledFirst? || (turn.Taken? && !turn.goOn)
  }

  /** What may be concluded from one turn, whatever it did. */
  lemma AfterTurn(states: seq<Workspace>, before: seq<Facts>, now: seq<Facts>, after: Facts, turn: Turn,
                  done: seq<Entry>, k: nat, planned: seq<Planned>, baselineOwner: string,
                  target: Commit, was: bool, canceled: bool, outputFailed: bool, completed: bool)
    requires Running(states, before, now, done, k, planned, baselineOwner, target, was, completed) && (was ==> canceled)
    requires k < |states| == |planned| == |now| &&
             Turned(states[k], now[k], after, turn, planned[k], baselineOwner, target,
                    canceled, outputFailed)
    ensures if Stops(turn) then
              Halted(states, before, now[k := after], done + EntriesOf(turn), if turn.Taken? then k + 1 else k, planned,
                     baselineOwner, target, canceled, outputFailed)
            else
              Running(states, before, now[k := after], done + EntriesOf(turn), k + 1, planned, baselineOwner, target,
                      canceled, completed && (turn.Taken? ==> turn.entry.status == Completed))
  {
    hide Running, Over, Selected, Workspace.Reported;
    if turn.Taken? {
      RunTakes(states, before, now, after, done, turn.entry, k, planned, baselineOwner, target, was, canceled,
               completed);
    } else {
      assert now[k := after] == now && done + [] == done;
      if turn.Skipped? {
        RunSkips(states, before, now, done, k, planned, baselineOwner, target, was, canceled, completed);
      } else {
        HaltsBefore(states, before, now, done, k, planned, baselineOwner, target, was, canceled, outputFailed,
                    completed);
      }
    }
  }

  /** What has been handed over, and what is listed, after one more turn. */
  lemma AddTurn(baseline: Entry, done: seq<Entry>, turn: Turn)
    requires Handed(done) == done && (turn.Taken? && turn.goOn ==> turn.entry.reason != RollbackIncomplete)
    ensures [baseline] + done + HandedBy(turn) == [baseline] + Handed(done + EntriesOf(turn))
    ensures [baseline] + done + EntriesOf(turn) == [baseline] + (done + EntriesOf(turn))
    ensures !Stops(turn) ==> Handed(done + EntriesOf(turn)) == done + EntriesOf(turn)
  {
    assert done + [] == done;
  }

  /** The turns of a run, from the baseline on, until it is through or stopped. */
  method TakeTurns(states: seq<Workspace>, planned: seq<Planned>, baselineOwner: string, baseline: Entry,
                   target: Commit, context: RunContext, ghost before: seq<Facts>)
    returns (entries: seq<Entry>, completed: bool, stop: nat, stopped: bool, ghost done: seq<Entry>,
             ghost now: seq<Facts>)
    requires |states| == |planned| && SeparateWorkspaces(states)
    requires forall w | w in states :: IsAncestry(w.checkout.isAncestor)
    requires !context.outputFailed && context.handed == [] && |before| == |states| && FactsAre(states, before)
    modifies set w | w in states :: w
    modifies set w | w in states :: w.checkout
    modifies context
    ensures FactsAre(states, now) && entries == [baseline] + done && context.handed == [baseline] + Handed(done)
    ensures stopped ==>
              Halted(states, before, now, done, stop, planned, baselineOwner, target, context.canceled,
                     context.outputFailed)
    ensures !stopped ==>
      && stop == |states| && !context.outputFailed
      && Running(states, before, now, done, stop, planned, baselineOwner, target, context.canceled, completed)
  {
    entries, completed, stop, done, now := [baseline], true, 0, [], before;
    ghost var canceled := context.canceled;
    assert Handed([]) == [];
    hide *;
    RunBegins(states, before, planned, baselineOwner, target, canceled);
    assert entries == [baseline] + done;
    var shown := context.Progress(baseline);
    assert context.handed == [baseline] + done;
    stopped := !shown;
    if stopped {
      HaltsBefore(states, before, now, done, 0, planned, baselineOwner, target, canceled, canceled, true, completed);
    }
    while !stopped && stop < |states|
      invariant stop <= |states| && entries == [baseline] + done && canceled == context.canceled
      invariant |now| == |states| && FactsAre(states, now)
      invariant context.handed == [baseline] + Handed(done)
      invariant stopped ==>
                  Halted(states, before, now, done, stop, planned, baselineOwner, target, canceled,
                         context.outputFailed)
      invariant !stopped ==>
        && !context.outputFailed && Handed(done) == done
        && Running(states, before, now, done, stop, planned, baselineOwner, target, canceled, completed)
      decreases |states| - stop, !stopped
    {
      assert states[stop] in states;
      var turn;
      ghost var after;
      turn, after := TakeTurn(states, planned, stop, baselineOwner, target, context, now);
      AfterTurn(states, before, now, after, turn, done, stop, planned, baselineOwner, target, canceled,
                context.canceled, context.outputFailed, completed);
      AddTurn(baseline, done, turn);
      now, done, canceled := now[stop := after], done + EntriesOf(turn), context.canceled;
      entries, completed := entries + EntriesOf(turn), completed && (turn.Taken? ==> turn.entry.status == Completed);
      stopped, stop := Stops(turn), if turn.CanceledFirst? then stop else stop + 1;
    }
  }

  /** The turns, and the canceled entries of a run that was stopped. */
  method SettleAll(states: seq<Workspace>, planned: seq<Planned>, baselineOwner: string, baseline: Entry,
                   target: Commit, context: RunContext, ghost before: seq<Facts>)
    returns (entries: seq<Entry>, completed: bool, ghost done: seq<Entry>, ghost stop: nat, ghost stopped: bool,
             ghost now: seq<Facts>)
    requires |states| == |planned| && SeparateWorkspaces(states)
    requires forall w | w in states :: IsAncestry(w.checkout.isAncestor)
    requires !context.outputFailed && context.handed == [] && |before| == |states| && FactsAre(states, before)
    modifies set w | w in states :: w
    modifies set w | w in states :: w.checkout
    modifies context
    ensures FactsAre(states, now) && context.handed == [baseline] + Handed(done)
    ensures Finished(states, before, now, planned, baselineOwner, baseline, target, entries, completed, done, stop,
                     stopped, context.canceled, context.outputFailed)
  {
    hide *;
    var end, halted;
    entries, completed, end, halted, done, now :=
      TakeTurns(states, planned, baselineOwner, baseline, target, context, before);
    stop, stopped := end, halted;
    if halted {
      HaltedFinishes(states, before, now, done, end, planned, baselineOwner, baseline, target, context.canceled,
                     context.outputFailed);
      entries, completed := entries + CanceledEntries(states[end..], planned[end..], baselineOwner), false;
    } else {
      RunFinishes(states, before, now, done, planned, baselineOwner, baseline, target, context.canceled, completed);
    }
  }

  /**
   The run after the baseline has settled. Whatever fails or is canceled, there is one entry per selected workspace,
   in plan order: for the workspaces before the stopping point it tells what happened to them, for the others that they
   were canceled and not touched. The run stops early only for a reason, always after a workspace that is left
   rollback-incomplete and after output that fails, and never begins an update once it is canceled. It completes exactly
   if it was not stopped and every entry completed.
  */
  method ExecuteWorkspaces(states: seq<Workspace>, planned: seq<Planned>, baselineOwner: string, baseline: Entry,
                           target: Commit, context: RunContext)
    returns (entries: seq<Entry>, completed: bool, ghost done: seq<Entry>, ghost stop: nat, ghost stopped: bool)
    requires |states| == |planned| && SeparateWorkspaces(states) && baseline.status == Completed &&
             baseline.reason == NoReason
    requires forall w | w in states :: IsAncestry(w.checkout.isAncestor)
    requires !context.outputFailed && context.handed == []
    modifies set w | w in states :: w
    modifies set w | w in states :: w.checkout
    modifies context
    ensures Settled(entries, baseline, states, |states|, baselineOwner, completed)
    ensures Ended(done, states, stop, stopped, baselineOwner)
    ensures Lists(entries, baseline, done, stop, stopped, states, planned, baselineOwner)
    ensures stopped ==> Excused(context.canceled, context.outputFailed, done)
    ensures context.outputFailed ==> stopped
    ensures context.handed == [baseline] + Handed(done)
    ensures forall e | e in context.handed :: e.reason != RollbackIncomplete
    ensures forall i | 0 <= i < |done| && done[i].reason != RollbackIncomplete ::
              1 + i < |context.handed| && context.handed[1 + i] == done[i]
    ensures completed <==> !stopped && forall e | e in done :: e.status == Completed
    ensures forall k | 0 <= k < stop ::
              Told(states, old(states[k].Now()), states[k].Now(), done, k, planned[k], baselineOwner, target,
                   context.canceled)
    ensures forall k | stop <= k < |states| :: states[k].Now() == old(states[k].Now())
    ensures forall k | stop <= k < |states| && Selected(states[k], baselineOwner) ::
              var i := 1 + Position(states, k, baselineOwner);
              i < |entries| && NotReached(states[k], planned[k], entries[i])
    ensures !context.canceled && !context.outputFailed &&
            (forall k | 0 <= k < |states| && Selected(states[k], baselineOwner) ::
               states[k].Undisturbed(old(states[k].Now()), planned[k], target)) ==>
      completed
  {
    hide *;
    ghost var now;
    ghost var before := FactsNow(states);
    entries, completed, done, stop, stopped, now :=
      SettleAll(states, planned, baselineOwner, baseline, target, context, before);
    FinishedSays(states, before, now, planned, baselineOwner, baseline, target, entries, completed, done, stop, stopped,
                 context.canceled, context.outputFailed);
    HandedSays(baseline, done, states, stop, stopped, baselineOwner);
    FactsShow(states, now);
  }

  lemma FactsNow(states: seq<Workspace>) returns (facts: seq<Facts>)
    ensures FactsAre(states, facts)
    ensures |facts| == |states| && forall k | 0 <= k < |states| :: facts[k] == states[k].Now()
  {
    facts := FactsFrom(states, 0);
  }

  lemma FactsShow(states: seq<Workspace>, facts: seq<Facts>)
    requires FactsAre(states, facts)
    ensures |facts| == |states| && forall k | 0 <= k < |states| :: facts[k] == states[k].Now()
  {
  }
}
