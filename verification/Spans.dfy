/** Half-open stretches of stream offsets, and what a list of them covers. */
module Spans {

  datatype Span = Span(start: int, end: int)

  /** Offset x lies in some span. */
  ghost predicate Covers(spans: seq<Span>, x: int) {
    exists s | s in spans :: s.start <= x < s.end
  }

  /** Offset x lies in some span or at the end of one; an empty span touches its own position. */
  ghost predicate Touches(spans: seq<Span>, x: int) {
    exists s | s in spans :: s.start <= x <= s.end
  }

  predicate WellFormed(spans: seq<Span>) {
    forall i | 0 <= i < |spans| :: spans[i].start <= spans[i].end
  }

  /** Ordered by start, and with at least one free offset between two neighbours. */
  predicate Separated(spans: seq<Span>) {
    forall i, j | 0 <= i < j < |spans| :: spans[i].end < spans[j].start
  }

  predicate IncreasingEnds(spans: seq<Span>) {
    forall i, j | 0 <= i < j < |spans| :: spans[i].end < spans[j].end
  }

  predicate EndsAtMost(spans: seq<Span>, limit: int) {
    forall i | 0 <= i < |spans| :: spans[i].end <= limit
  }

  /** The same offsets are covered and touched. */
  ghost predicate SameReach(left: seq<Span>, right: seq<Span>) {
    forall x: int :: (Covers(left, x) <==> Covers(right, x)) && (Touches(left, x) <==> Touches(right, x))
  }

  lemma SameElementsSameReach(left: seq<Span>, right: seq<Span>)
    requires multiset(left) == multiset(right)
    ensures SameReach(left, right)
  {
    assert forall s :: s in left <==> s in multiset(left);
    assert forall s :: s in right <==> s in multiset(right);
    assert forall s :: s in left <==> s in right;
  }

  lemma ReachOfAppend(spans: seq<Span>, s: Span)
    ensures forall x: int :: Covers(spans + [s], x) <==> Covers(spans, x) || s.start <= x < s.end
    ensures forall x: int :: Touches(spans + [s], x) <==> Touches(spans, x) || s.start <= x <= s.end
  {
    forall x: int
      ensures Covers(spans + [s], x) <==> Covers(spans, x) || s.start <= x < s.end
      ensures Touches(spans + [s], x) <==> Touches(spans, x) || s.start <= x <= s.end
    {
      assert forall t :: t in spans + [s] <==> t in spans || t == s;
      assert s in spans + [s];
      if Covers(spans, x) {
        var t :| t in spans && t.start <= x < t.end;
        assert t in spans + [s];
      }
      if Touches(spans, x) {
        var t :| t in spans && t.start <= x <= t.end;
        assert t in spans + [s];
      }
    }
  }

  // ----- the two retained parts of a growing list

  /** The spans a window over the first limit offsets can see. */
  function StartingBefore(spans: seq<Span>, limit: int): seq<Span> {
    if spans == [] then []
    else
      var last := spans[|spans| - 1];
      StartingBefore(spans[..|spans| - 1], limit) + (if last.start < limit && last.end > 0 then [last] else [])
  }

  /** The spans that reach past a cutoff. */
  function EndingAfter(spans: seq<Span>, cutoff: int): seq<Span> {
    if spans == [] then []
    else
      var last := spans[|spans| - 1];
      EndingAfter(spans[..|spans| - 1], cutoff) + (if last.end > cutoff then [last] else [])
  }

  lemma RetainAppend(spans: seq<Span>, s: Span, limit: int)
    ensures StartingBefore(spans + [s], limit) ==
            StartingBefore(spans, limit) + (if s.start < limit && s.end > 0 then [s] else [])
    ensures EndingAfter(spans + [s], limit) == EndingAfter(spans, limit) + (if s.end > limit then [s] else [])
  {
    assert (spans + [s])[..|spans|] == spans;
  }

  lemma {:induction false} RetainedMembers(spans: seq<Span>, limit: int)
    ensures forall s :: s in StartingBefore(spans, limit) <==> s in spans && s.start < limit && s.end > 0
    ensures forall s :: s in EndingAfter(spans, limit) <==> s in spans && s.end > limit
  {
    if spans != [] {
      var n := |spans| - 1;
      RetainedMembers(spans[..n], limit);
      assert spans == spans[..n] + [spans[n]];
    }
  }

  /** In a list with increasing ends, what reaches past a cutoff is a final stretch. */
  lemma {:induction false} EndingAfterDrops(spans: seq<Span>, cutoff: int)
    requires spans != [] && IncreasingEnds(spans)
    ensures spans[0].end > cutoff ==> EndingAfter(spans, cutoff) == spans
    ensures spans[0].end <= cutoff ==>
      IncreasingEnds(spans[1..]) && EndingAfter(spans, cutoff) == EndingAfter(spans[1..], cutoff)
  {
    var n := |spans| - 1;
    if n > 0 {
      var middle := spans[1..][..n - 1];
      assert spans == spans[..n] + [spans[n]] && spans[1..] == middle + [spans[n]];
      assert spans[..n][1..] == middle && spans[..n][0] == spans[0];
      assert IncreasingEnds(spans[..n]) && IncreasingEnds(spans[1..]) && spans[0].end < spans[n].end;
      hide *;
      RetainAppend(spans[..n], spans[n], cutoff);
      RetainAppend(middle, spans[n], cutoff);
      EndingAfterDrops(spans[..n], cutoff);
    }
  }

  /** A list in discovery order: sound spans whose ends increase up to the current position. */
  predicate Discovered(spans: seq<Span>, position: int) {
    WellFormed(spans) && IncreasingEnds(spans) && EndsAtMost(spans, position)
  }

  lemma DiscoverOne(spans: seq<Span>, s: Span)
    requires Discovered(spans, s.end - 1) && s.start <= s.end
    ensures Discovered(spans + [s], s.end)
  {
  }

  /** Raising the cutoff step by step keeps what raising it at once would keep. */
  lemma {:induction false} EndingAfterTwice(spans: seq<Span>, low: int, high: int)
    requires low <= high
    ensures EndingAfter(EndingAfter(spans, low), high) == EndingAfter(spans, high)
  {
    if spans != [] {
      var n := |spans| - 1;
      EndingAfterTwice(spans[..n], low, high);
      RetainAppend(EndingAfter(spans[..n], low), spans[n], high);
      if spans[n].end <= low {
        assert EndingAfter(spans, low) == EndingAfter(spans[..n], low);
      }
    }
  }

  lemma {:induction false} EndingAfterIncreases(spans: seq<Span>, cutoff: int)
    requires IncreasingEnds(spans)
    ensures IncreasingEnds(EndingAfter(spans, cutoff))
  {
    if spans != [] {
      var n := |spans| - 1;
      EndingAfterIncreases(spans[..n], cutoff);
      RetainedMembers(spans[..n], cutoff);
      forall s | s in EndingAfter(spans[..n], cutoff)
        ensures s.end < spans[n].end
      {
        var i :| 0 <= i < n && spans[i] == s;
      }
    }
  }

  /** Strictly increasing ends leave room for one span per offset. */
  lemma {:induction false} IncreasingEndsFit(spans: seq<Span>, low: int, high: int)
    requires IncreasingEnds(spans)
    requires forall s | s in spans :: low < s.end <= high
    ensures low <= high ==> |spans| <= high - low
    ensures low > high ==> spans == []
  {
    if spans != [] {
      var n := |spans| - 1;
      assert low < spans[n].end <= high;
      forall s | s in spans[..n]
        ensures low < s.end <= spans[n].end - 1
      {
        var i :| 0 <= i < n && spans[i] == s;
      }
      IncreasingEndsFit(spans[..n], low, spans[n].end - 1);
    }
  }
}
