/**
 The byte-at-a-time redaction scanner and its bounded span lists (internal/service/aggregate.go:566-788).

 The scanner has one mode for the whole stream and, inside an authority, a second mode for a query that may
 turn out to be part of the userinfo. State() reads both as the pair of automata of RedactionSpec.
*/
module Scanner {
  import opened Bytes
  import opened Spans
  import opened RedactionSpec

  datatype Mode =
    | ScanNormal
    | ScanScheme
    | ScanSlashOne
    | ScanSlashTwo
    | ScanAuthority
    | ScanQueryKey
    | ScanSensitiveValue

  /**
   The head list has every span the first window can see. The tail list is a backing list with a dead
   prefix; its live part has every span that reaches into the last window, and the dead prefix is shorter.
  */
  ghost predicate Kept(inspection: nat, position: int, recorded: seq<Span>,
                       headSpans: seq<Span>, tailSpans: seq<Span>, tailSpanStart: nat)
  {
    && Discovered(recorded, position)
    && headSpans == StartingBefore(recorded, inspection)
    && tailSpanStart <= |tailSpans|
    && (tailSpanStart == 0 || 2 * tailSpanStart < |tailSpans|)
    && tailSpans[tailSpanStart..] == EndingAfter(recorded, position - inspection)
  }

  /** Only the live part of the backing list matters. */
  lemma KeptAfterCompaction(inspection: nat, position: int, recorded: seq<Span>, headSpans: seq<Span>,
                            tailSpans: seq<Span>, tailSpanStart: nat,
                            tailSpans': seq<Span>, tailSpanStart': nat)
    requires Kept(inspection, position, recorded, headSpans, tailSpans, tailSpanStart)
    requires tailSpanStart <= |tailSpans| && tailSpanStart' <= |tailSpans'|
    requires tailSpans'[tailSpanStart'..] == tailSpans[tailSpanStart..]
    requires tailSpanStart' == 0 || 2 * tailSpanStart' < |tailSpans'|
    ensures Kept(inspection, position, recorded, headSpans, tailSpans', tailSpanStart')
  {
  }

  lemma KeptBounds(inspection: nat, position: int, recorded: seq<Span>,
                   headSpans: seq<Span>, tailSpans: seq<Span>, tailSpanStart: nat)
    requires Kept(inspection, position, recorded, headSpans, tailSpans, tailSpanStart)
    ensures tailSpanStart <= |tailSpans| && IncreasingEnds(tailSpans[tailSpanStart..])
  {
    EndingAfterIncreases(recorded, position - inspection);
  }

  /** The dead spans at the front of a live list. */
  function Dead(live: seq<Span>, cutoff: int): (n: nat)
    ensures n <= |live|
  {
    if live != [] && live[0].end <= cutoff then 1 + Dead(live[1..], cutoff) else 0
  }

  lemma {:induction false} DeadAreDropped(live: seq<Span>, cutoff: int)
    requires IncreasingEnds(live)
    ensures live[Dead(live, cutoff)..] == EndingAfter(live, cutoff)
  {
    if live != [] {
      EndingAfterDrops(live, cutoff);
      if live[0].end <= cutoff {
        DeadAreDropped(live[1..], cutoff);
      }
    }
  }

  lemma KeptAfterAdd(inspection: nat, recorded: seq<Span>, headSpans: seq<Span>,
                     tailSpans: seq<Span>, tailSpanStart: nat, span: Span)
    requires Kept(inspection, span.end, recorded, headSpans, tailSpans, tailSpanStart)
    requires Discovered(recorded, span.end - 1) && 0 < span.start <= span.end && 0 < inspection
    ensures Kept(inspection, span.end, recorded + [span],
                 if span.start < inspection && span.end > 0 then headSpans + [span] else headSpans,
                 tailSpans + [span], tailSpanStart)
  {
    hide Discovered, StartingBefore, EndingAfter;
    DiscoverOne(recorded, span);
    RetainAppend(recorded, span, inspection);
    RetainAppend(recorded, span, span.end - inspection);
    assert (tailSpans + [span])[tailSpanStart..] == tailSpans[tailSpanStart..] + [span];
  }

  lemma {:induction false} KeptAfterPrune(inspection: nat, position: int, recorded: seq<Span>, headSpans: seq<Span>,
                                          tailSpans: seq<Span>, tailSpanStart: nat,
                                          tailSpans': seq<Span>, tailSpanStart': nat)
    requires Kept(inspection, position - 1, recorded, headSpans, tailSpans, tailSpanStart)
    requires tailSpanStart <= |tailSpans| && tailSpanStart' <= |tailSpans'|
    requires tailSpans'[tailSpanStart'..] == EndingAfter(tailSpans[tailSpanStart..], position - inspection)
    requires tailSpanStart' == 0 || 2 * tailSpanStart' < |tailSpans'|
    ensures Kept(inspection, position, recorded, headSpans, tailSpans', tailSpanStart')
  {
    EndingAfterTwice(recorded, position - 1 - inspection, position - inspection);
  }

  lemma OneByteFurther(text: seq<Byte>, b: Byte)
    ensures After(text + [b], |text| + 1) == Step(After(text, |text|), |text|, b)
    ensures Found(text + [b], |text| + 1) == Found(text, |text|) + Emit(After(text, |text|), |text|, b)
  {
    assert (text + [b])[..|text|] == text == text[..|text|];
    OnlyThePrefixMatters(text + [b], text, |text|);
  }

  class RedactionScanner {
    /** The size of the inspection windows at both ends of the stream. */
    const inspection: nat

    var position: nat
    var state: Mode
    var authorityQueryState: Mode
    var authorityStart: int
    var valueStart: int
    var authorityQueryValueStart: int
    var queryKey: seq<Byte>
    var authorityQueryKey: seq<Byte>
    var headSpans: seq<Span>
    var tailSpans: seq<Span>
    var tailSpanStart: nat

    /** Every span added so far. */
    ghost var recorded: seq<Span>

    constructor (inspection: nat)
      ensures this.inspection == inspection && position == 0
      ensures Modes() && Lists() && State() == START && recorded == []
    {
      this.inspection := inspection;
      position := 0;
      state, authorityQueryState := ScanNormal, ScanNormal;
      authorityStart, valueStart, authorityQueryValueStart := 0, 0, 0;
      queryKey, authorityQueryKey := [], [];
      headSpans, tailSpans, tailSpanStart := [], [], 0;
      recorded := [];
    }

    // ----- abstraction

    function LinkState(): Link
      reads this`state, this`authorityStart
    {
      match state
      case ScanScheme => Scheme
      case ScanSlashOne => SlashOne
      case ScanSlashTwo => SlashTwo
      case ScanAuthority => Authority(authorityStart)
      case _ => Idle
    }

    function QueryState(): Query
      reads this`state, this`queryKey, this`valueStart
      reads this`authorityQueryState, this`authorityQueryKey, this`authorityQueryValueStart
    {
      match state
      case ScanQueryKey => Key(queryKey)
      case ScanSensitiveValue => Value(valueStart)
      case ScanAuthority => AuthorityQuery()
      case _ => Outside
    }

    function AuthorityQuery(): Query
      reads this`authorityQueryState, this`authorityQueryKey, this`authorityQueryValueStart
    {
      match authorityQueryState
      case ScanQueryKey => Key(authorityQueryKey)
      case ScanSensitiveValue => Value(authorityQueryValueStart)
      case _ => Outside
    }

    function State(): Scan
      reads this`state, this`authorityStart, this`queryKey, this`valueStart
      reads this`authorityQueryState, this`authorityQueryKey, this`authorityQueryValueStart
    {
      Scan(LinkState(), QueryState())
    }

    /** The nested mode is a query mode, and it is in use only inside an authority. */
    predicate Modes()
      reads this`state, this`authorityQueryState
    {
      && authorityQueryState in {ScanNormal, ScanQueryKey, ScanSensitiveValue}
      && (state != ScanAuthority ==> authorityQueryState == ScanNormal)
    }

    ghost predicate Lists()
      reads this`position, this`headSpans, this`tailSpans, this`tailSpanStart, this`recorded
    {
      Kept(inspection, position, recorded, headSpans, tailSpans, tailSpanStart)
    }

    // ----- span lists

    /** Memory is bounded for every stream: the live spans have different ends inside the last window. */
    lemma MemoryIsBounded()
      requires Lists()
      ensures |tailSpans| - tailSpanStart <= inspection
      ensures |tailSpans| <= 2 * inspection
      ensures tailSpanStart <= |tailSpans| - tailSpanStart
    {
      EndingAfterIncreases(recorded, position - inspection);
      RetainedMembers(recorded, position - inspection);
      var live := EndingAfter(recorded, position - inspection);
      forall s | s in live
        ensures position - inspection < s.end <= position
      {
        var i :| 0 <= i < |recorded| && recorded[i] == s;
      }
      IncreasingEndsFit(live, position - inspection, position);
    }

    method CompactTailSpans()
      requires tailSpanStart <= |tailSpans|
      modifies this`tailSpans, this`tailSpanStart
      ensures tailSpanStart <= |tailSpans|
      ensures tailSpans[tailSpanStart..] == old(tailSpans[tailSpanStart..])
      ensures tailSpanStart == 0 || 2 * tailSpanStart < |tailSpans|
    {
      if tailSpanStart == 0 {
        return;
      }
      if tailSpanStart < |tailSpans| && tailSpanStart * 2 < |tailSpans| {
        return;
      }
      tailSpans := tailSpans[tailSpanStart..];
      tailSpanStart := 0;
    }

    /** A span completed at the current position is recorded, and kept wherever a window may need it. */
    method AddSpan(start: int, end: int)
      requires Lists() && end == position
      requires Discovered(recorded, position - 1)
      requires 0 < start && 0 < inspection
      modifies this`headSpans, this`tailSpans, this`tailSpanStart, this`recorded
      ensures Lists()
      ensures recorded == old(recorded) + (if start <= end then [Span(start, end)] else [])
    {
      hide Kept, Discovered;
      if end < start {
        return;
      }
      var span := Span(start, end);
      KeptBounds(inspection, position, recorded, headSpans, tailSpans, tailSpanStart);
      ghost var tail, from := tailSpans, tailSpanStart;
      CompactTailSpans();
      KeptAfterCompaction(inspection, position, recorded, headSpans, tail, from, tailSpans, tailSpanStart);
      KeptAfterAdd(inspection, recorded, headSpans, tailSpans, tailSpanStart, span);
      if start < inspection && end > 0 {
        headSpans := headSpans + [span];
      }
      tailSpans := tailSpans + [span];
      recorded := recorded + [span];
    }

    /** Spans that have left the last window are dropped from the front, and no others. */
    method Prune(total: int)
      requires tailSpanStart <= |tailSpans| && IncreasingEnds(tailSpans[tailSpanStart..])
      modifies this`tailSpans, this`tailSpanStart
      ensures tailSpanStart <= |tailSpans|
      ensures tailSpanStart == 0 || 2 * tailSpanStart < |tailSpans|
      ensures tailSpans[tailSpanStart..] == EndingAfter(old(tailSpans[tailSpanStart..]), total - inspection)
    {
      hide IncreasingEnds, EndingAfter;
      var cutoff := total - inspection;
      ghost var from, live := tailSpanStart, tailSpans[tailSpanStart..];
      DeadAreDropped(live, cutoff);
      while tailSpanStart < |tailSpans| && tailSpans[tailSpanStart].end <= cutoff
        invariant from <= tailSpanStart <= |tailSpans| && tailSpans == old(tailSpans)
        invariant tailSpanStart + Dead(tailSpans[tailSpanStart..], cutoff) == from + Dead(live, cutoff)
      {
        assert tailSpans[tailSpanStart..][1..] == tailSpans[tailSpanStart + 1..];
        tailSpanStart := tailSpanStart + 1;
      }
      assert live[tailSpanStart - from..] == tailSpans[tailSpanStart..];
      CompactTailSpans();
    }

    /** The live tail spans. */
    function ActiveTailSpans(): seq<Span>
      requires tailSpanStart <= |tailSpans|
      reads this`tailSpans, this`tailSpanStart
    {
      tailSpans[tailSpanStart..]
    }

    // ----- one byte

    method ResetAuthorityQuery()
      modifies this`authorityQueryState, this`authorityQueryValueStart, this`authorityQueryKey
      ensures authorityQueryState == ScanNormal
    {
      authorityQueryState := ScanNormal;
      authorityQueryValueStart := 0;
      authorityQueryKey := [];
    }

    /** Inside an authority the nested query takes the step of the query automaton. */
    method ConsumeAuthorityQuery(b: Byte)
      requires state == ScanAuthority && Modes() && Lists() && 0 < inspection
      requires Sane(State(), position) && Discovered(recorded, position - 1)
      modifies this`authorityQueryState, this`authorityQueryValueStart, this`authorityQueryKey
      modifies this`headSpans, this`tailSpans, this`tailSpanStart, this`recorded
      ensures Modes() && Lists()
      ensures AuthorityQuery() == QueryStep(old(AuthorityQuery()), position, b)
      ensures recorded ==
        if old(AuthorityQuery()).Value? && EndsValue(b)
        then old(recorded) + [Span(old(AuthorityQuery()).start, position)]
        else old(recorded)
    {
      hide Kept, Discovered, IsSensitiveKey;
      match authorityQueryState {
        case ScanNormal =>
          if OpensKey(b) {
            authorityQueryKey := [];
            authorityQueryState := ScanQueryKey;
          }
        case ScanQueryKey =>
          if b == EQUALS {
            if IsSensitiveKey(authorityQueryKey) {
              authorityQueryValueStart := position + 1;
              authorityQueryState := ScanSensitiveValue;
            } else {
              authorityQueryState := ScanNormal;
            }
          } else if OpensKey(b) {
            authorityQueryKey := [];
          } else if IsTerminator(b) {
            authorityQueryState := ScanNormal;
          } else if |authorityQueryKey| < KEY_CAP {
            authorityQueryKey := authorityQueryKey + [Lower(b)];
          } else {
            authorityQueryState := ScanNormal;
          }
        case ScanSensitiveValue =>
          if b == AMPERSAND {
            AddSpan(authorityQueryValueStart, position);
            authorityQueryKey := [];
            authorityQueryState := ScanQueryKey;
          } else if IsTerminator(b) {
            AddSpan(authorityQueryValueStart, position);
            authorityQueryState := ScanNormal;
          }
        case _ =>
      }
    }

    /** A slash or white space ends the authority; a nested query that is still open goes on outside. */
    method LeaveAuthority(b: Byte)
      requires state == ScanAuthority && Modes() && Lists() && 0 < inspection
      requires b == SLASH || IsSpace(b)
      modifies this
      ensures Modes() && Lists() && position == old(position)
      ensures State() == Scan(Idle, old(AuthorityQuery())) && recorded == old(recorded)
      decreases 1
    {
      hide Kept, Discovered, IsSensitiveKey;
      var nested := authorityQueryState;
      match nested {
        case ScanQueryKey =>
          queryKey := authorityQueryKey;
        case ScanSensitiveValue =>
          valueStart := authorityQueryValueStart;
        case _ =>
      }
      ResetAuthorityQuery();
      state := nested;
      if nested == ScanNormal {
        ConsumeByte(b);
      }
    }

    /** Inside an authority: the nested query first, then the end of the userinfo or of the authority. */
    method ConsumeAuthorityByte(b: Byte)
      requires state == ScanAuthority && Modes() && Lists() && 0 < inspection
      requires Sane(State(), position) && Discovered(recorded, position - 1)
      modifies this
      ensures Modes() && Lists() && position == old(position)
      ensures State() == Step(old(State()), position, b)
      ensures recorded == old(recorded) + Emit(old(State()), position, b)
      decreases 2, 0
    {
      hide Kept, Discovered, IsSensitiveKey;
      ConsumeAuthorityQuery(b);
      if b == AT {
        assert recorded == old(recorded) && QueryState() == QueryStep(old(QueryState()), position, b);
        if position > authorityStart {
          AddSpan(authorityStart, position);
        }
        ResetAuthorityQuery();
        state := ScanNormal;
      } else if b == SLASH || IsSpace(b) {
        LeaveAuthority(b);
      }
    }

    /** One byte of the scanner is one step of the two automata, and records what that step completes. */
    method ConsumeByte(b: Byte)
      requires Modes() && Lists() && 0 < inspection
      requires state != ScanNormal ==> Sane(State(), position) && Discovered(recorded, position - 1)
      modifies this
      ensures Modes() && Lists() && position == old(position)
      ensures State() == Step(old(State()), position, b)
      ensures recorded == old(recorded) + Emit(old(State()), position, b)
      decreases if state == ScanNormal then 0 else 2, 1
    {
      hide Kept, Discovered, IsSensitiveKey;
      match state {
        case ScanNormal =>
          if IsAlpha(b) {
            state := ScanScheme;
          } else if OpensKey(b) {
            queryKey := [];
            state := ScanQueryKey;
          }
        case ScanScheme =>
          if IsSchemeByte(b) {
          } else if b == COLON {
            state := ScanSlashOne;
          } else {
            state := ScanNormal;
            ConsumeByte(b);
          }
        case ScanSlashOne =>
          if b == SLASH {
            state := ScanSlashTwo;
          } else {
            state := ScanNormal;
            ConsumeByte(b);
          }
        case ScanSlashTwo =>
          if b == SLASH {
            authorityStart := position + 1;
            state := ScanAuthority;
          } else {
            state := ScanNormal;
            ConsumeByte(b);
          }
        case ScanAuthority =>
          ConsumeAuthorityByte(b);
        case ScanQueryKey =>
          if b == EQUALS {
            if IsSensitiveKey(queryKey) {
              valueStart := position + 1;
              state := ScanSensitiveValue;
            } else {
              state := ScanNormal;
            }
          } else if OpensKey(b) {
            queryKey := [];
          } else if IsTerminator(b) {
            state := ScanNormal;
          } else if |queryKey| < KEY_CAP {
            queryKey := queryKey + [Lower(b)];
          } else {
            state := ScanNormal;
          }
        case ScanSensitiveValue =>
          if b == AMPERSAND || IsTerminator(b) {
            AddSpan(valueStart, position);
            state := ScanNormal;
            ConsumeByte(b);
          }
      }
    }

    // ----- whole streams

    /** The scanner has read exactly this text. */
    ghost predicate Tracks(text: seq<Byte>)
      reads this
    {
      && position == |text| && 0 < inspection
      && Modes() && Lists()
      && State() == After(text, |text|)
      && recorded == Found(text, |text|)
    }

    /** The scanner has read this text and nothing is pending any more. */
    ghost predicate Finished(text: seq<Byte>)
      reads this
    {
      && position == |text| && 0 < inspection
      && Modes() && Lists()
      && !QueryState().Value?
      && recorded == AllSpans(text)
    }

    lemma TracksMeans(text: seq<Byte>)
      requires Tracks(text)
      ensures position == |text| && 0 < inspection && Modes() && Lists()
      ensures State() == After(text, |text|) && recorded == Found(text, |text|)
      ensures Sane(State(), position) && Discovered(recorded, position - 1)
    {
      AfterIsSane(text, |text|);
      FoundEndsIncrease(text, |text|);
      hide After, Found, Kept, State;
    }

    lemma MeansTracks(text: seq<Byte>)
      requires position == |text| && 0 < inspection && Modes() && Lists()
      requires State() == After(text, |text|) && recorded == Found(text, |text|)
      ensures Tracks(text)
    {
      hide After, Found, Kept, State, Modes, Lists;
    }

    /** One byte, one step forward, and whatever has left the last window is dropped. */
    method Advance(ghost text: seq<Byte>, b: Byte)
      requires Tracks(text)
      modifies this
      ensures Tracks(text + [b])
    {
      hide Kept, After, Found, Step, Emit, Discovered, Tracks, Modes, Sane, State, EndingAfter, IncreasingEnds;
      OneByteFurther(text, b);
      TracksMeans(text);
      ConsumeByte(b);
      position := position + 1;
      ghost var tail, from := tailSpans, tailSpanStart;
      KeptBounds(inspection, position - 1, recorded, headSpans, tail, from);
      Prune(position);
      KeptAfterPrune(inspection, position, recorded, headSpans, tail, from, tailSpans, tailSpanStart);
      MeansTracks(text + [b]);
    }

    method Consume(ghost text: seq<Byte>, value: seq<Byte>)
      requires Tracks(text)
      modifies this
      ensures Tracks(text + value)
    {
      hide *;
      assert text + value[..0] == text;
      for i := 0 to |value|
        invariant Tracks(text + value[..i])
      {
        Advance(text + value[..i], value[i]);
        assert text + value[..i] + [value[i]] == text + value[..i + 1];
      }
      assert value[..|value|] == value;
    }

    /** Pruning once more at the same total changes nothing. */
    method PruneAgain(ghost text: seq<Byte>, total: nat)
      requires Tracks(text) && total == position
      modifies this`tailSpans, this`tailSpanStart
      ensures Tracks(text)
    {
      hide After, Found, Discovered, EndingAfter, StartingBefore;
      ghost var live := tailSpans[tailSpanStart..];
      KeptBounds(inspection, position, recorded, headSpans, tailSpans, tailSpanStart);
      EndingAfterTwice(recorded, position - inspection, position - inspection);
      Prune(total);
    }

    /** The end of the stream completes an open value; without one, nothing changes. */
    method Finish()
      requires Modes() && Lists() && 0 < inspection
      requires QueryState().Value? ==> Sane(State(), position) && Discovered(recorded, position - 1)
      modifies this
      ensures Modes() && Lists() && position == old(position)
      ensures !QueryState().Value?
      ensures recorded == old(recorded) + Unfinished(old(State()), position)
      ensures !old(QueryState()).Value? ==>
        headSpans == old(headSpans) && tailSpans == old(tailSpans) && tailSpanStart == old(tailSpanStart)
    {
      hide Kept, Discovered;
      if state == ScanAuthority && authorityQueryState == ScanSensitiveValue {
        AddSpan(authorityQueryValueStart, position);
        ResetAuthorityQuery();
      }
      if state == ScanSensitiveValue {
        AddSpan(valueStart, position);
        state := ScanNormal;
      }
    }

    lemma FinishedMeans(text: seq<Byte>)
      requires position == |text| && 0 < inspection && Modes() && Lists() && !QueryState().Value?
      requires recorded == AllSpans(text)
      ensures Finished(text)
    {
      hide Kept, After, Found;
    }
  }
}
