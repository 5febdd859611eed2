/**
 Conditional replacement of a file by exchanging two names (internal/fsutil/atomic_expected_linux.go:20-61,
 internal/fsutil/atomic.go:59-150, 303-381).

 Two names of one directory are modelled: the destination, which anybody may replace between any two calls, and
 the writer's own temporary name, which only the writer uses. Every call may fail. What the writer itself does to
 generations is kept in a log.
*/
module AtomicReplace {
  import opened Options

  /** One file: who it is, its mode, whether it is a regular file, and its bytes. */
  datatype Generation = Generation(identity: int, mode: int, regular: bool, bytes: seq<int>)

  /** What an observation of a path returns. */
  datatype Info = Info(identity: int, mode: int, regular: bool)

  function InfoOf(g: Generation): Info {
    Info(g.identity, g.mode, g.regular)
  }

  /** The generation a caller expects: same file, same mode, regular, and the same bytes. */
  predicate Matches(g: Generation, expected: Info, bytes: seq<int>) {
    g.regular && g.identity == expected.identity && g.mode == expected.mode && g.bytes == bytes
  }

  /** The destination holds the generation a caller expects. */
  predicate Expects(destination: Option<Generation>, expected: Info, bytes: seq<int>) {
    destination.Some? && Matches(destination.value, expected, bytes)
  }

  /** What the writer did: an exchange took one generation away from the destination and put another there. */
  datatype Action = Created(made: Generation) | Rewritten(before: Generation, after: Generation) |
    Exchanged(displaced: Generation, placed: Generation) | Removed(gone: Generation)

  /** The chain of errors a caller can inspect. */
  datatype Result = Done | Failed(replaced: bool, auxiliary: bool)

  /** The outcome extracted from an error: an auxiliary path alone already means a completed replacement. */
  function ReplacementCompleted(r: Result): bool {
    r.Failed? && (r.replaced || r.auxiliary)
  }

  // ----- bookkeeping over the log

  function Held(temporary: Option<Generation>): multiset<Generation> {
    if temporary.Some? then multiset{temporary.value} else multiset{}
  }

  /** Generations that came into the writer's hands, and generations that left them. */
  function Taken(log: seq<Action>): multiset<Generation> {
    if log == [] then multiset{}
    else
      var last := log[|log| - 1];
      Taken(log[..|log| - 1]) +
      match last
      case Created(g) => multiset{g}
      case Rewritten(_, g) => multiset{g}
      case Exchanged(g, _) => multiset{g}
      case Removed(_) => multiset{}
  }

  function Given(log: seq<Action>): multiset<Generation> {
    if log == [] then multiset{}
    else
      var last := log[|log| - 1];
      Given(log[..|log| - 1]) +
      match last
      case Created(_) => multiset{}
      case Rewritten(g, _) => multiset{g}
      case Exchanged(_, g) => multiset{g}
      case Removed(g) => multiset{g}
  }

  /** The exchanges of a log, in order: everything the writer ever did to the destination. */
  function Exchanges(log: seq<Action>): (exchanges: seq<Action>)
    ensures forall a | a in exchanges :: a in log && a.Exchanged?
  {
    if log == [] then []
    else
      var last := log[|log| - 1];
      Exchanges(log[..|log| - 1]) + if last.Exchanged? then [last] else []
  }

  lemma LogGrows(log: seq<Action>, a: Action)
    ensures Taken(log + [a]) == Taken(log) + match a
      case Created(g) => multiset{g}
      case Rewritten(_, g) => multiset{g}
      case Exchanged(g, _) => multiset{g}
      case Removed(_) => multiset{}
    ensures Given(log + [a]) == Given(log) + match a
      case Created(_) => multiset{}
      case Rewritten(g, _) => multiset{g}
      case Exchanged(_, g) => multiset{g}
      case Removed(g) => multiset{g}
    ensures Exchanges(log + [a]) == Exchanges(log) + if a.Exchanged? then [a] else []
  {
    assert (log + [a])[..|log|] == log;
  }

  /** The writer only exchanged and removed, and removed only its own file or the expected generation. */
  predicate OnlyOwnOrExpectedGone(steps: seq<Action>, own: Generation, expected: Info, expectedData: seq<int>) {
    forall a | a in steps :: a.Exchanged? || (a.Removed? && (a.gone == own || Matches(a.gone, expected, expectedData)))
  }

  /**
   What a conditional replacement may have done, given its result. On success the writer did one exchange, which
   displaced exactly the expected generation, and removed that generation. A failure without auxiliary path left
   no trace: either no exchange happened, or a second one put the displaced generation back and the writer removed
   its own file. In every other case the temporary name is reported, and at most the writer's own file or the
   expected generation has been removed.
  */
  predicate Linearises(r: Result, steps: seq<Action>, own: Generation, temporary: Option<Generation>,
                       expected: Info, expectedData: seq<int>)
  {
    && OnlyOwnOrExpectedGone(steps, own, expected, expectedData)
    && match r
       case Done =>
         && temporary == None
         && |steps| == 2 && steps[0].Exchanged? && Matches(steps[0].displaced, expected, expectedData)
         && steps == [Exchanged(steps[0].displaced, own), Removed(steps[0].displaced)]
       case Failed(replaced, auxiliary) =>
         if auxiliary then replaced && Reported(steps, own, temporary, expected, expectedData)
         else
           && !replaced
           && if temporary.Some? then temporary.value == own && steps == []
              else
                && |steps| == 3 && steps[0].Exchanged?
                && steps == [Exchanged(steps[0].displaced, own), Exchanged(own, steps[0].displaced), Removed(own)]
  }

  /**
   What was done when the temporary name is reported. The new file was exchanged in, and the displaced generation is
   held; or that was the expected one, and it is gone. Or a second exchange took whatever was there, which is held; or
   this was the writer's own file, and it is gone.
  */
  predicate Reported(steps: seq<Action>, own: Generation, temporary: Option<Generation>,
                     expected: Info, expectedData: seq<int>)
  {
    && steps != [] && steps[0].Exchanged? && steps[0].placed == own
    && var g := steps[0].displaced;
    && match temporary
       case Some(held) =>
         || (steps == [Exchanged(g, own)] && held == g)
         || steps == [Exchanged(g, own), Exchanged(held, g)]
       case None =>
         || (steps == [Exchanged(g, own), Removed(g)] && Matches(g, expected, expectedData))
         || steps == [Exchanged(g, own), Exchanged(own, g), Removed(own)]
  }

  lemma NothingHappened(own: Generation, expected: Info, expectedData: seq<int>)
    ensures Linearises(Failed(false, false), [], own, Some(own), expected, expectedData)
  {
  }

  lemma ExpectedRemoved(own: Generation, g: Generation, expected: Info, expectedData: seq<int>)
    requires Matches(g, expected, expectedData)
    ensures Linearises(Done, [Exchanged(g, own), Removed(g)], own, None, expected, expectedData)
    ensures Linearises(Failed(true, true), [Exchanged(g, own), Removed(g)], own, None, expected, expectedData)
    ensures Linearises(Failed(true, true), [Exchanged(g, own)], own, Some(g), expected, expectedData)
  {
  }

  /** One or two exchanges and no removal, with the temporary name reported. */
  lemma StillHeld(own: Generation, g: Generation, third: Generation, expected: Info, expectedData: seq<int>)
    ensures Linearises(Failed(true, true), [Exchanged(g, own)], own, Some(g), expected, expectedData)
    ensures Linearises(Failed(true, true), [Exchanged(g, own), Exchanged(third, g)], own, Some(third),
                       expected, expectedData)
  {
  }

  /** Two regular files with the same identity, mode and bytes are one generation. */
  lemma SameFile(a: Generation, b: Generation, info: Info, bytes: seq<int>)
    requires Matches(a, info, bytes) && Matches(b, info, bytes)
    ensures a == b
  {
  }

  lemma OwnRemoved(own: Generation, g: Generation, expected: Info, expectedData: seq<int>)
    ensures Linearises(Failed(false, false), [Exchanged(g, own), Exchanged(own, g), Removed(own)], own, None,
                       expected, expectedData)
    ensures Linearises(Failed(true, true), [Exchanged(g, own), Exchanged(own, g), Removed(own)], own, None,
                       expected, expectedData)
  {
  }

  // ----- the whole write

  /**
   What a write may have done by the time it returns. Whatever says that the replacement was completed, the complete new
   file was exchanged into the destination. Success, or a failure of the final directory flush, means that this was the
   only exchange, and that it displaced exactly the expected generation. A failure that does
   not report a completed replacement did nothing to the destination, or put back what it took. Only the writer's own
   file or the expected generation is ever removed, and whatever else is left under the temporary name is reported.
  */
  predicate WriteOutcome(r: Result, log: seq<Action>, own: Option<Generation>, temporary: Option<Generation>,
                         mode: int, data: seq<int>, expected: Info, expectedData: seq<int>)
  {
    && (forall a | a in log && a.Removed? ::
          (own.Some? && a.gone == own.value) || Matches(a.gone, expected, expectedData))
    && (forall a | a in log && a.Rewritten? :: own.Some? && a.before.identity == own.value.identity)
    && (temporary.Some? ==> (r.Failed? && r.auxiliary) || temporary == own)
    && (r.Done? || ReplacementCompleted(r) ==>
          && own.Some? && own.value.regular && own.value.mode == mode && own.value.bytes == data
          && 1 <= |Exchanges(log)| <= 2 && Exchanges(log)[0] in Exchanges(log)
          && Exchanges(log)[0].placed == own.value)
    && (r.Failed? && r.auxiliary ==> r.replaced)
    && (r.Done? || (r.replaced && !r.auxiliary) ==>
          && temporary == None
          && |Exchanges(log)| == 1 && Exchanges(log)[0] in Exchanges(log)
          && Matches(Exchanges(log)[0].displaced, expected, expectedData))
    && (r.Failed? && !ReplacementCompleted(r) ==>
          || Exchanges(log) == []
          || (own.Some? && |Exchanges(log)| == 2 && Exchanges(log)[0] in Exchanges(log) &&
              Exchanges(log) == [Exchanged(Exchanges(log)[0].displaced, own.value),
                                 Exchanged(own.value, Exchanges(log)[0].displaced)]))
  }

  predicate NoExchanges(steps: seq<Action>) {
    forall a | a in steps :: !a.Exchanged?
  }

  lemma {:induction false} ExchangesConcat(a: seq<Action>, b: seq<Action>)
    ensures Exchanges(a + b) == Exchanges(a) + Exchanges(b)
  {
    if b == [] {
      assert a + b == a;
    } else {
      var n := |b| - 1;
      assert a + b == (a + b[..n]) + [b[n]] && b == b[..n] + [b[n]];
      hide Exchanges;
      ExchangesConcat(a, b[..n]);
      LogGrows(a + b[..n], b[n]);
      LogGrows(b[..n], b[n]);
    }
  }

  lemma {:induction false} NoneExchanged(steps: seq<Action>)
    requires NoExchanges(steps)
    ensures Exchanges(steps) == []
  {
    if steps != [] {
      NoneExchanged(steps[..|steps| - 1]);
      assert steps[|steps| - 1] in steps;
    }
  }

  lemma ExchangesBetween(before: seq<Action>, steps: seq<Action>, after: seq<Action>)
    requires NoExchanges(before) && NoExchanges(after)
    ensures Exchanges(before + steps + after) == Exchanges(steps)
  {
    ExchangesConcat(before + steps, after);
    ExchangesConcat(before, steps);
    NoneExchanged(before);
    NoneExchanged(after);
  }

  lemma ExchangesOfFew(a: Action, b: Action, c: Action)
    ensures Exchanges([]) == []
    ensures a.Exchanged? ==> Exchanges([a]) == [a]
    ensures a.Exchanged? && b.Exchanged? ==> Exchanges([a, b]) == [a, b]
    ensures a.Exchanged? && b.Removed? ==> Exchanges([a, b]) == [a]
    ensures a.Exchanged? && b.Exchanged? && c.Removed? ==> Exchanges([a, b, c]) == [a, b]
  {
    assert [a, b, c] == [] + [a] + [b] + [c] && [a, b] == [] + [a] + [b] && [a] == [] + [a];
    LogGrows([], a);
    LogGrows([] + [a], b);
    LogGrows([] + [a] + [b], c);
  }

  lemma OwnIsWritten(own: Generation, writer: Info, data: seq<int>)
    requires Matches(own, writer, data)
    ensures own.regular && own.mode == writer.mode && own.bytes == data
  {
  }

  lemma NeverExchanged(prepared: seq<Action>, cleaned: seq<Action>,
                       own: Option<Generation>, temporary: Option<Generation>,
                       mode: int, data: seq<int>, expected: Info, expectedData: seq<int>)
    requires forall a | a in prepared ::
      a.Created? || (a.Rewritten? && own.Some? && a.before.identity == own.value.identity)
    requires cleaned == [] ==> temporary == own
    requires cleaned != [] ==> own.Some? && temporary == None && cleaned == [Removed(own.value)]
    ensures WriteOutcome(Failed(false, false), prepared + cleaned, own, temporary, mode, data, expected, expectedData)
  {
    ExchangesBetween(prepared, [], cleaned);
    assert prepared + [] + cleaned == prepared + cleaned;
  }

  /** An action that let a generation out of the writer's hands. */
  predicate Releases(a: Action, g: Generation) {
    match a
    case Created(_) => false
    case Rewritten(before, _) => before == g
    case Exchanged(_, placed) => placed == g
    case Removed(gone) => gone == g
  }

  lemma {:induction false} GivenHasReason(log: seq<Action>, g: Generation)
    requires g in Given(log)
    ensures exists a | a in log :: Releases(a, g)
  {
    var n := |log| - 1;
    assert log[n] in log && forall a | a in log[..n] :: a in log;
    if !Releases(log[n], g) {
      assert g in Given(log[..n]);
      hide Given;
      GivenHasReason(log[..n], g);
    }
  }

  lemma {:induction false} DisplacedIsTaken(log: seq<Action>, a: Action)
    requires a in log && a.Exchanged?
    ensures a.displaced in Taken(log)
  {
    var n := |log| - 1;
    if a != log[n] {
      assert a in log[..n];
      DisplacedIsTaken(log[..n], a);
    }
  }

  /**
   Conservation. Whatever happened in between, a generation the writer took away from the destination was put back
   there by the writer, or is still held under the temporary name and reported, or is the writer's own file or the
   expected generation.
  */
  lemma DisplacedIsAccountedFor(r: Result, log: seq<Action>,
                                own: Option<Generation>, temporary: Option<Generation>,
                                mode: int, data: seq<int>, expected: Info, expectedData: seq<int>,
                                a: Action)
    requires WriteOutcome(r, log, own, temporary, mode, data, expected, expectedData)
    requires Taken(log) == Given(log) + Held(temporary)
    requires a in log && a.Exchanged?
    ensures
      || (exists back | back in log && back.Exchanged? :: back.placed == a.displaced)
      || (temporary == Some(a.displaced) && r.Failed? && r.auxiliary)
      || (own.Some? && a.displaced.identity == own.value.identity)
      || Matches(a.displaced, expected, expectedData)
  {
    hide Matches, Exchanges;
    DisplacedIsTaken(log, a);
    if a.displaced in Given(log) {
      GivenHasReason(log, a.displaced);
      var b :| b in log && Releases(b, a.displaced);
    } else {
      assert a.displaced in Held(temporary);
    }
  }

  lemma OutcomeOfWrite(prepared: seq<Action>, steps: seq<Action>, cleaned: seq<Action>,
                       replaced: Result, r: Result, own: Generation,
                       held: Option<Generation>, temporary: Option<Generation>,
                       mode: int, data: seq<int>, expected: Info, expectedData: seq<int>)
    requires forall a | a in prepared :: a.Created? || (a.Rewritten? && a.before.identity == own.identity)
    requires own.regular && own.mode == mode && own.bytes == data
    requires Linearises(replaced, steps, own, held, expected, expectedData)
    requires r == replaced || (replaced.Done? && r == Failed(true, false))
    requires cleaned == [] ==> temporary == held
    requires cleaned != [] ==>
               !(r.Failed? && r.auxiliary) && held.Some? && temporary == None && cleaned == [Removed(held.value)]
    ensures WriteOutcome(r, prepared + steps + cleaned, Some(own), temporary, mode, data, expected, expectedData)
  {
    hide Matches, OnlyOwnOrExpectedGone, NoExchanges, Exchanges, Reported;
    ReplacementExchanges(replaced, steps, own, held, expected, expectedData);
    ReplacementHolds(replaced, steps, own, held, expected, expectedData);
    hide Linearises;
    CleanupExchangesNothing(prepared, cleaned);
    ExchangesBetween(prepared, steps, cleaned);
    ActionsOfWrite(prepared, steps, cleaned, own, held, expected, expectedData);
  }

  lemma CleanupExchangesNothing(prepared: seq<Action>, cleaned: seq<Action>)
    requires forall a | a in prepared :: a.Created? || a.Rewritten?
    requires |cleaned| == 0 || (|cleaned| == 1 && cleaned[0].Removed?)
    ensures NoExchanges(prepared) && NoExchanges(cleaned)
  {
  }

  lemma ReplacementHolds(r: Result, steps: seq<Action>, own: Generation, held: Option<Generation>,
                         expected: Info, expectedData: seq<int>)
    requires Linearises(r, steps, own, held, expected, expectedData)
    ensures OnlyOwnOrExpectedGone(steps, own, expected, expectedData)
    ensures r.Done? ==> held == None
    ensures r.Failed? && !r.auxiliary ==> !r.replaced && (held.Some? ==> held == Some(own))
  {
  }

  /** All a replacement ever did to the destination. */
  lemma ReplacementExchanges(r: Result, steps: seq<Action>, own: Generation, held: Option<Generation>,
                             expected: Info, expectedData: seq<int>)
    requires Linearises(r, steps, own, held, expected, expectedData)
    ensures r.Done? ==>
      && |Exchanges(steps)| == 1 && Exchanges(steps)[0].Exchanged? && Exchanges(steps)[0].placed == own
      && Matches(Exchanges(steps)[0].displaced, expected, expectedData)
    ensures r.Failed? && r.auxiliary ==>
      r.replaced && 1 <= |Exchanges(steps)| <= 2 && Exchanges(steps)[0].Exchanged? && Exchanges(steps)[0].placed == own
    ensures r.Failed? && !r.auxiliary ==>
      || Exchanges(steps) == []
      || (|Exchanges(steps)| == 2 && Exchanges(steps)[0].Exchanged? &&
          Exchanges(steps) == [Exchanged(Exchanges(steps)[0].displaced, own),
                               Exchanged(own, Exchanges(steps)[0].displaced)])
  {
    hide Matches, OnlyOwnOrExpectedGone;
    if |steps| == 3 {
      ExchangesOfFew(steps[0], steps[1], steps[2]);
    } else if |steps| == 2 {
      ExchangesOfFew(steps[0], steps[1], steps[1]);
    } else if |steps| == 1 {
      ExchangesOfFew(steps[0], steps[0], steps[0]);
    } else {
      ExchangesOfFew(Removed(own), Removed(own), Removed(own));
    }
    hide Exchanges;
  }

  lemma ActionsOfWrite(prepared: seq<Action>, steps: seq<Action>, cleaned: seq<Action>,
                       own: Generation, held: Option<Generation>,
                       expected: Info, expectedData: seq<int>)
    requires forall a | a in prepared :: a.Created? || (a.Rewritten? && a.before.identity == own.identity)
    requires OnlyOwnOrExpectedGone(steps, own, expected, expectedData)
    requires cleaned != [] ==> held == Some(own) && cleaned == [Removed(own)]
    ensures forall a | a in prepared + steps + cleaned ::
      && (a.Removed? ==> a.gone == own || Matches(a.gone, expected, expectedData))
      && (a.Rewritten? ==> a.before.identity == own.identity)
  {
    hide Matches;
    forall a | a in prepared + steps + cleaned
      ensures a.Removed? ==> a.gone == own || Matches(a.gone, expected, expectedData)
      ensures a.Rewritten? ==> a.before.identity == own.identity
    {
      assert a in prepared || a in steps || a in cleaned;
    }
  }

  class Directory {
    /** Nobody else acts, and no call fails that can succeed. */
    const smooth: bool

    var destination: Option<Generation>
    var temporary: Option<Generation>
    ghost var log: seq<Action>
    /** How many removals took effect and were reported as failed. */
    ghost var unacknowledged: nat
    /** The file whose contents were flushed last, and how long the log was when the directory was flushed last. */
    ghost var flushed: Option<Generation>
    ghost var settled: nat

    /** Nothing the writer takes gets lost: it is given back, removed by an action of the log, or still held. */
    ghost predicate Conserved()
      reads this`log, this`temporary
    {
      Taken(log) == Given(log) + Held(temporary)
    }

    constructor (smooth: bool)
      ensures this.smooth == smooth && Conserved() && temporary == None && log == []
    {
      this.smooth := smooth;
      destination := *;
      temporary := None;
      log := [];
      unacknowledged, flushed, settled := 0, None, 0;
    }

    // ----- environment and system calls

    /** Anybody may put anything at the destination, or remove it. */
    method Interfere()
      modifies this`destination
      ensures smooth ==> destination == old(destination)
    {
      if !smooth {
        destination := *;
      }
    }

    /** The outcome of a call: anything, unless nothing fails. */
    method Outcome() returns (ok: bool)
      ensures smooth ==> ok
    {
      ok := *;
      ok := ok || smooth;
    }

    /** Some call that has no bearing on the two names succeeds or fails. */
    method Attempt() returns (ok: bool)
      modifies this`destination
      ensures smooth ==> ok && destination == old(destination)
    {
      Interfere();
      ok := Outcome();
    }

    /** Flushing the contents of the temporary file. */
    method SyncTemporary() returns (ok: bool)
      modifies this`destination, this`flushed
      ensures ok ==> flushed == temporary
      ensures smooth ==> ok && destination == old(destination)
    {
      ok := Attempt();
      flushed := if ok then temporary else flushed;
    }

    /** Flushing the directory, so that everything done to the names so far is durable. */
    method SyncDirectory() returns (ok: bool)
      modifies this`destination, this`settled
      ensures settled == if ok then |log| else old(settled)
      ensures smooth ==> ok && destination == old(destination)
    {
      ok := Attempt();
      settled := if ok then |log| else settled;
    }

    /** The kernel swaps both names at once, or does nothing. */
    method Exchange() returns (ok: bool)
      requires Conserved()
      modifies this
      ensures unacknowledged == old(unacknowledged)
      ensures flushed == old(flushed) && settled == old(settled)
      ensures Conserved()
      ensures ok ==> old(temporary).Some? && temporary.Some?
      ensures ok ==> log == old(log) + [Exchanged(temporary.value, old(temporary).value)]
      ensures !ok ==> temporary == old(temporary) && log == old(log)
      ensures smooth && !ok ==> destination == old(destination)
      ensures smooth ==> (ok <==> old(destination).Some? && old(temporary).Some?)
      ensures smooth && ok ==> destination == old(temporary) && temporary == old(destination)
    {
      hide Taken, Given, Exchanges;
      Interfere();
      ok := Outcome();
      if !ok || destination.None? || temporary.None? {
        return false;
      }
      LogGrows(log, Exchanged(destination.value, temporary.value));
      log := log + [Exchanged(destination.value, temporary.value)];
      destination, temporary := temporary, destination;
    }

    method LstatTemporary() returns (info: Option<Info>)
      modifies this`destination
      ensures info.Some? ==> temporary.Some? && info.value == InfoOf(temporary.value)
      ensures smooth ==> (temporary.Some? ==> info.Some?) && destination == old(destination)
    {
      var ok := Attempt();
      info := if ok && temporary.Some? then Some(InfoOf(temporary.value)) else None;
    }

    method ReadTemporary() returns (bytes: Option<seq<int>>)
      modifies this`destination
      ensures bytes.Some? ==> temporary.Some? && bytes.value == temporary.value.bytes
      ensures smooth ==> (temporary.Some? ==> bytes.Some?) && destination == old(destination)
    {
      var ok := Attempt();
      bytes := if ok && temporary.Some? then Some(temporary.value.bytes) else None;
    }

    /** Removal may fail before or after it took effect. */
    method UnlinkTemporary() returns (ok: bool)
      requires Conserved() && temporary.Some?
      modifies this
      ensures flushed == old(flushed) && settled == old(settled)
      ensures Conserved()
      ensures ok ==> temporary == None
      ensures temporary == None ==> log == old(log) + [Removed(old(temporary).value)]
      ensures temporary != None ==> temporary == old(temporary) && log == old(log)
      ensures unacknowledged == old(unacknowledged) + if temporary == None && !ok then 1 else 0
      ensures smooth ==> ok && destination == old(destination)
    {
      hide Taken, Given, Exchanges;
      Interfere();
      var effect := Outcome();
      ok := Outcome();
      if effect {
        LogGrows(log, Removed(temporary.value));
        log := log + [Removed(temporary.value)];
        temporary := None;
        unacknowledged := unacknowledged + if ok then 0 else 1;
      } else {
        ok := false;
      }
    }

    // ----- the protocol

    /** The inspection of a displaced generation: three observations with a read between each two. */
    method ValidateExpectedGeneration(expected: Info, expectedData: seq<int>) returns (info: Option<Info>)
      modifies this`destination
      ensures info.Some? ==> temporary.Some? && info.value == InfoOf(temporary.value)
      ensures info.Some? ==> Matches(temporary.value, expected, expectedData)
      ensures smooth ==> destination == old(destination)
      ensures smooth && temporary.Some? && Matches(temporary.value, expected, expectedData) ==> info.Some?
    {
      var first := LstatTemporary();
      if first.None? || !first.value.regular || first.value.identity != expected.identity ||
         first.value.mode != expected.mode {
        return None;
      }
      var firstData := ReadTemporary();
      if firstData.None? {
        return None;
      }
      var middle := LstatTemporary();
      if middle.None? || middle.value.identity != first.value.identity || middle.value.mode != first.value.mode {
        return None;
      }
      var secondData := ReadTemporary();
      if secondData.None? {
        return None;
      }
      var last := LstatTemporary();
      if last.None? || last.value.identity != first.value.identity || last.value.mode != first.value.mode {
        return None;
      }
      if firstData.value != expectedData || secondData.value != expectedData {
        return None;
      }
      return last;
    }

    /** Removal of the temporary name, only while it still names the given file; a missing name is fine. */
    method RemoveTemporary(expected: Info) returns (ok: bool)
      requires Conserved()
      modifies this
      ensures flushed == old(flushed) && settled == old(settled)
      ensures Conserved()
      ensures ok ==> temporary == None
      ensures temporary == old(temporary) ==> log == old(log)
      ensures temporary != old(temporary) ==>
        old(temporary).Some? && old(temporary).value.identity == expected.identity && temporary == None &&
        log == old(log) + [Removed(old(temporary).value)]
      ensures !ok && temporary == None && old(temporary).Some? ==> unacknowledged > old(unacknowledged)
      ensures unacknowledged >= old(unacknowledged)
      ensures smooth ==> destination == old(destination)
      ensures smooth && (old(temporary).Some? ==> old(temporary).value.identity == expected.identity) ==> ok
    {
      var known := Attempt();
      if known && temporary.None? {
        return true;
      }
      if !known || temporary.value.identity != expected.identity {
        return false;
      }
      ok := UnlinkTemporary();
    }

    /** The conditional replacement of the Linux adapter. */
    method ReplaceExpected(writer: Info, expected: Info, data: seq<int>, expectedData: seq<int>)
      returns (r: Result, ghost steps: seq<Action>)
      requires Conserved()
      requires temporary.Some? && Matches(temporary.value, writer, data)
      modifies this
      ensures flushed == old(flushed)
      ensures r == Failed(false, false) && temporary == None ==> settled >= |old(log)| + 2
      ensures r.Done? ==> temporary == None
      ensures Conserved() && log == old(log) + steps
      ensures Linearises(r, steps, old(temporary).value, temporary, expected, expectedData)
      ensures r.Failed? && r.auxiliary && temporary == None ==> unacknowledged > old(unacknowledged)
      ensures smooth ==> r == if Expects(old(destination), expected, expectedData) then Done else Failed(false, false)
      ensures smooth && r.Done? ==> destination == old(temporary)
      ensures smooth && !r.Done? ==> destination == old(destination)
      ensures smooth && temporary.Some? ==> temporary == old(temporary)
    {
      hide Conserved, Matches, Linearises;
      ghost var own := temporary.value;
      var exchanged := Exchange();
      if !exchanged {
        NothingHappened(own, expected, expectedData);
        return Failed(false, false), [];
      }
      ghost var g := temporary.value;
      steps := [Exchanged(g, own)];
      var displaced := ValidateExpectedGeneration(expected, expectedData);
      if displaced.Some? {
        ExpectedRemoved(own, g, expected, expectedData);
        ghost var before := temporary;
        var removed := RemoveTemporary(displaced.value);
        if temporary != before {
          steps := [Exchanged(g, own), Removed(g)];
        }
        return if removed then Done else Failed(true, true), steps;
      }
      var restored := Exchange();
      if !restored {
        var _ := SyncDirectory();
        StillHeld(own, g, g, expected, expectedData);
        return Failed(true, true), steps;
      }
      ghost var third := temporary.value;
      steps := [Exchanged(g, own), Exchanged(third, g)];
      StillHeld(own, g, third, expected, expectedData);
      var synced := SyncDirectory();
      if !synced {
        return Failed(true, true), steps;
      }
      var again := ValidateExpectedGeneration(writer, data);
      if again.None? {
        return Failed(true, true), steps;
      }
      SameFile(own, third, writer, data);
      OwnRemoved(own, g, expected, expectedData);
      var cleaned := RemoveTemporary(again.value);
      if temporary.None? {
        steps := [Exchanged(g, own), Exchanged(own, g), Removed(own)];
      }
      return if cleaned then Failed(false, false) else Failed(true, true), steps;
    }

    // ----- the whole write

    /** A new file of the writer under a name nobody else uses. */
    method CreateTemporary() returns (ok: bool)
      requires Conserved() && temporary == None
      modifies this
      ensures unacknowledged == old(unacknowledged)
      ensures flushed == old(flushed) && settled == old(settled)
      ensures Conserved()
      ensures ok ==> temporary.Some? && temporary.value.regular && log == old(log) + [Created(temporary.value)]
      ensures !ok ==> temporary == None && log == old(log)
      ensures smooth ==> ok && destination == old(destination)
    {
      hide Taken, Given, Exchanges;
      Interfere();
      ok := Outcome();
      if ok {
        var identity: int, mode: int := *, *;
        var made := Generation(identity, mode, true, []);
        LogGrows(log, Created(made));
        log := log + [Created(made)];
        temporary := Some(made);
      }
    }

    /** Changing the mode or writing bytes; a failed call may have written anything. */
    method RewriteTemporary(mode: int, bytes: seq<int>) returns (ok: bool)
      requires Conserved() && temporary.Some? && temporary.value.regular
      modifies this
      ensures unacknowledged == old(unacknowledged)
      ensures flushed == old(flushed) && settled == old(settled)
      ensures Conserved() && temporary.Some? && temporary.value.regular
      ensures temporary.value.identity == old(temporary).value.identity
      ensures ok ==> temporary.value.mode == mode && temporary.value.bytes == bytes
      ensures log == old(log) + [Rewritten(old(temporary).value, temporary.value)]
      ensures smooth ==> ok && destination == old(destination)
    {
      hide Taken, Given, Exchanges;
      Interfere();
      ok := Outcome();
      var anyMode: int, anyBytes: seq<int> := *, *;
      var before := temporary.value;
      var after := if ok then before.(mode := mode, bytes := bytes) else before.(mode := anyMode, bytes := anyBytes);
      LogGrows(log, Rewritten(before, after));
      log := log + [Rewritten(before, after)];
      temporary := Some(after);
    }

    /** The cleanup of a failed write: only the writer's own file is removed, and only if nothing is reported. */
    method Cleanup(r: Result, writer: Info) returns (ghost steps: seq<Action>)
      requires Conserved()
      modifies this
      ensures flushed == old(flushed) && settled == old(settled)
      ensures Conserved() && log == old(log) + steps
      ensures unacknowledged >= old(unacknowledged)
      ensures steps == [] ==> temporary == old(temporary)
      ensures steps != [] ==> !(r.Failed? && r.auxiliary) && old(temporary).Some? && temporary == None
      ensures steps != [] ==> steps == [Removed(old(temporary).value)]
      ensures smooth ==> destination == old(destination)
      ensures smooth && !(r.Failed? && r.auxiliary) &&
              (old(temporary).Some? ==> old(temporary).value.identity == writer.identity)
        ==> temporary == None
    {
      steps := [];
      if r.Failed? && r.auxiliary {
        return;
      }
      ghost var before := temporary;
      var _ := RemoveTemporary(writer);
      if temporary != before {
        steps := [Removed(before.value)];
      }
    }

    /** Preparing the temporary file: created, given its mode, written, flushed and closed. */
    method Prepare(mode: int, data: seq<int>) returns (ok: bool, writer: Info, ghost steps: seq<Action>)
      requires Conserved() && temporary == None
      modifies this
      ensures unacknowledged == old(unacknowledged)
      ensures Conserved() && log == old(log) + steps
      ensures forall a | a in steps ::
        a.Created? || (a.Rewritten? && temporary.Some? && a.before.identity == temporary.value.identity)
      ensures ok ==> temporary.Some? && Matches(temporary.value, writer, data) && writer.mode == mode
      ensures ok ==> flushed == temporary
      ensures temporary.Some? ==> writer.identity == temporary.value.identity
      ensures smooth ==> ok && destination == old(destination)
    {
      hide Conserved;
      ok, writer, steps := false, Info(0, 0, false), [];
      var created := CreateTemporary();
      if !created {
        return;
      }
      steps := [Created(temporary.value)];
      writer := InfoOf(temporary.value);
      ghost var before := temporary.value;
      var chmod := RewriteTemporary(mode, []);
      steps := steps + [Rewritten(before, temporary.value)];
      if !chmod {
        return;
      }
      writer := InfoOf(temporary.value);
      before := temporary.value;
      var written := RewriteTemporary(mode, data);
      steps := steps + [Rewritten(before, temporary.value)];
      if !written {
        return;
      }
      ok := SyncTemporary();
      if ok {
        ok := Attempt();
      }
    }

    /** The expected-generation write as its callers see it. */
    method WriteExpected(mode: int, data: seq<int>, expected: Info, expectedData: seq<int>)
      returns (r: Result, ghost own: Option<Generation>)
      requires Conserved() && temporary == None && log == []
      modifies this
      ensures Conserved()
      ensures WriteOutcome(r, log, own, temporary, mode, data, expected, expectedData)
      ensures r.Failed? && r.auxiliary && temporary == None ==> unacknowledged > old(unacknowledged)
      ensures r.Done? || ReplacementCompleted(r) ==> flushed == own
      ensures r.Done? ==> settled == |log|
      ensures smooth ==> temporary == None
      ensures smooth ==> r == if Expects(old(destination), expected, expectedData) then Done else Failed(false, false)
      ensures smooth && r.Done? ==> destination == own && own.Some?
      ensures smooth && !r.Done? ==> destination == old(destination)
    {
      hide Conserved, Exchanges, Matches, Linearises, WriteOutcome;
      ghost var prepared, steps, cleaned;
      var ok: bool, writer: Info;
      ok, writer, prepared := Prepare(mode, data);
      own := temporary;
      if !ok {
        r := Failed(false, false);
        cleaned := Cleanup(r, writer);
        NeverExchanged(prepared, cleaned, own, temporary, mode, data, expected, expectedData);
        assert log == prepared + cleaned;
        return;
      }
      OwnIsWritten(own.value, writer, data);
      r, steps := ReplaceExpected(writer, expected, data, expectedData);
      ghost var held, replaced := temporary, r;
      if r.Failed? {
        cleaned := Cleanup(r, writer);
      } else {
        var synced := SyncDirectory();
        if !synced {
          r := Failed(true, false);
        }
        cleaned := Cleanup(r, writer);
      }
      OutcomeOfWrite(prepared, steps, cleaned, replaced, r, own.value, held, temporary, mode, data, expected,
                     expectedData);
      assert log == prepared + steps + cleaned;
    }
  }
}
