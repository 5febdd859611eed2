/**
 Rendering one retained window with its secret spans hidden
 (internal/service/aggregate.go:496-564).

 The reference definition is Cells: it decides offset by offset, from the raw unsorted span list, what is
 shown there. Normalize and RedactWindow are the loops of the program; they are proved to produce Cells.
*/
module WindowRender {
  import opened Bytes
  import opened Spans

  /** One byte of output: a stream byte together with the offset it came from, or a byte of marker text. */
  datatype Token = Raw(offset: int, value: Byte) | Mark(letter: char)

  const REDACTED := "[REDACTED]"

  function Marker(text: string): (tokens: seq<Token>)
    ensures |tokens| == |text|
    ensures forall i | 0 <= i < |tokens| :: tokens[i].Mark?
  {
    seq(|text|, i requires 0 <= i < |text| => Mark(text[i]))
  }

  /** The bytes value[from..to] of a window that begins at stream offset start. */
  function Raws(start: int, value: seq<Byte>, from: nat, to: nat): (tokens: seq<Token>)
    requires from <= to <= |value|
    ensures |tokens| == to - from
  {
    seq(to - from, i requires 0 <= i < to - from => Raw(start + from + i, value[from + i]))
  }

  // ----- reference definition

  /**
   A marker stands at offset x when a covered stretch begins there (or is cut by the left window edge), or
   when an empty span lies there and nothing covered precedes it.
  */
  ghost predicate MarkerAt(spans: seq<Span>, start: int, x: int) {
    if Covers(spans, x) then x == start || !Covers(spans, x - 1)
    else Touches(spans, x) && !Covers(spans, x - 1)
  }

  /** What a window beginning at start shows at its k-th offset. */
  ghost function Cell(spans: seq<Span>, start: int, value: seq<Byte>, k: nat): seq<Token>
    requires k < |value|
  {
    var x := start + k;
    (if MarkerAt(spans, start, x) then Marker(REDACTED) else []) +
    (if Covers(spans, x) then [] else [Raw(x, value[k])])
  }

  /** What the first n offsets of the window show. */
  ghost function Cells(spans: seq<Span>, start: int, value: seq<Byte>, n: nat): seq<Token>
    requires n <= |value|
  {
    if n == 0 then [] else Cells(spans, start, value, n - 1) + Cell(spans, start, value, n - 1)
  }

  /** A window depends only on what is covered and touched from the offset before it to its end. */
  lemma {:induction false} SameCells(left: seq<Span>, right: seq<Span>, start: int, value: seq<Byte>, n: nat)
    requires n <= |value|
    requires forall x | start - 1 <= x < start + n :: Covers(left, x) <==> Covers(right, x)
    requires forall x | start <= x < start + n :: Touches(left, x) <==> Touches(right, x)
    ensures Cells(left, start, value, n) == Cells(right, start, value, n)
  {
    if n != 0 {
      SameCells(left, right, start, value, n - 1);
      assert MarkerAt(left, start, start + n - 1) <==> MarkerAt(right, start, start + n - 1);
    }
  }

  /** A stretch nothing touches is shown as it is. */
  lemma {:induction false} PlainCells(spans: seq<Span>, start: int, value: seq<Byte>, from: nat, to: nat)
    requires from <= to <= |value|
    requires forall x | start + from <= x < start + to :: !Covers(spans, x) && !MarkerAt(spans, start, x)
    ensures Cells(spans, start, value, to) == Cells(spans, start, value, from) + Raws(start, value, from, to)
  {
    if from < to {
      PlainCells(spans, start, value, from, to - 1);
      assert !Covers(spans, start + (to - 1));
      assert Raws(start, value, from, to) ==
             Raws(start, value, from, to - 1) + [Raw(start + (to - 1), value[to - 1])];
    }
  }

  /** A covered stretch shows one marker and none of its bytes. */
  lemma {:induction false} HiddenCells(spans: seq<Span>, start: int, value: seq<Byte>, from: nat, to: nat)
    requires from < to <= |value|
    requires forall x | start + from <= x < start + to :: Covers(spans, x)
    requires from == 0 || !Covers(spans, start + from - 1)
    ensures Cells(spans, start, value, to) == Cells(spans, start, value, from) + Marker(REDACTED)
  {
    if from + 1 < to {
      HiddenCells(spans, start, value, from, to - 1);
      assert Covers(spans, start + to - 1) && Covers(spans, start + to - 2);
    } else {
      assert Covers(spans, start + from);
      assert Cell(spans, start, value, from) == Marker(REDACTED);
    }
  }

  // ----- normalisation

  /** The order of the comparison function: by start, and the longer span first. */
  predicate Precedes(a: Span, b: Span) {
    a.start < b.start || (a.start == b.start && a.end >= b.end)
  }

  predicate Ordered(spans: seq<Span>) {
    forall i, j | 0 <= i < j < |spans| :: Precedes(spans[i], spans[j])
  }

  function Insert(sorted: seq<Span>, s: Span): (r: seq<Span>)
    ensures multiset(r) == multiset(sorted) + multiset{s}
  {
    if sorted == [] then [s]
    else if Precedes(s, sorted[0]) then [s] + sorted
    else
      assert sorted == [sorted[0]] + sorted[1..];
      [sorted[0]] + Insert(sorted[1..], s)
  }

  lemma {:induction false} InsertKeepsOrder(sorted: seq<Span>, s: Span)
    requires Ordered(sorted)
    ensures Ordered(Insert(sorted, s))
  {
    if sorted != [] && !Precedes(s, sorted[0]) {
      var rest := Insert(sorted[1..], s);
      InsertKeepsOrder(sorted[1..], s);
      forall k | 0 <= k < |rest|
        ensures Precedes(sorted[0], rest[k])
      {
        assert rest[k] in multiset(rest);
        assert rest[k] == s || rest[k] in sorted[1..];
      }
    }
  }

  /** The library sort under that comparison. */
  function Sorted(spans: seq<Span>): (r: seq<Span>)
    ensures multiset(r) == multiset(spans)
    ensures Ordered(r)
  {
    if spans == [] then []
    else
      var last := |spans| - 1;
      assert spans == spans[..last] + [spans[last]];
      InsertKeepsOrder(Sorted(spans[..last]), spans[last]);
      Insert(Sorted(spans[..last]), spans[last])
  }

  lemma AppendKeepsReach(left: seq<Span>, right: seq<Span>, s: Span)
    requires SameReach(left, right)
    ensures SameReach(left + [s], right + [s])
  {
    ReachOfAppend(left, s);
    ReachOfAppend(right, s);
  }

  lemma InvertedReachesNothing(done: seq<Span>, s: Span)
    requires s.end < s.start
    ensures SameReach(done, done + [s])
  {
    ReachOfAppend(done, s);
  }

  /** Stretching a span to absorb a successor that starts inside it or right at its end changes no reach. */
  lemma AbsorbKeepsReach(done: seq<Span>, last: Span, s: Span)
    requires last.start <= s.start <= last.end && s.start <= s.end
    ensures SameReach(done + [Span(last.start, if s.end > last.end then s.end else last.end)], done + [last] + [s])
  {
    ReachOfAppend(done, Span(last.start, if s.end > last.end then s.end else last.end));
    ReachOfAppend(done, last);
    ReachOfAppend(done + [last], s);
  }

  /** One step of the merge, on the spans kept so far: drop an inverted span, absorb, or keep. */
  function MergeOne(kept: seq<Span>, s: Span): seq<Span> {
    var last := |kept| - 1;
    if s.end < s.start then kept
    else if kept != [] && s.start <= kept[last].end then
      kept[..last] + [Span(kept[last].start, if s.end > kept[last].end then s.end else kept[last].end)]
    else kept + [s]
  }

  /** The spans kept after reading a prefix of the sorted list. */
  ghost predicate Merged(kept: seq<Span>, sorted: seq<Span>, read: nat)
    requires read <= |sorted|
  {
    && WellFormed(kept)
    && Separated(kept)
    && (kept != [] ==> forall i | read <= i < |sorted| :: kept[|kept| - 1].start <= sorted[i].start)
    && SameReach(kept, sorted[..read])
  }

  /** A step keeps the normal form and reaches exactly what the input so far reached. */
  lemma MergeOneKeeps(kept: seq<Span>, sorted: seq<Span>, read: nat)
    requires Ordered(sorted) && read < |sorted| && Merged(kept, sorted, read)
    ensures Merged(MergeOne(kept, sorted[read]), sorted, read + 1)
  {
    var s := sorted[read];
    AppendKeepsReach(kept, sorted[..read], s);
    assert sorted[..read + 1] == sorted[..read] + [s];
    if s.end < s.start {
      InvertedReachesNothing(kept, s);
    } else if kept != [] && s.start <= kept[|kept| - 1].end {
      var last := kept[|kept| - 1];
      assert kept == kept[..|kept| - 1] + [last];
      AbsorbKeepsReach(kept[..|kept| - 1], last, s);
    }
  }

  lemma MergedNone(sorted: seq<Span>)
    ensures Merged([], sorted, 0)
  {
  }

  /** When the whole sorted list has been read, the kept spans are the normal form of the input. */
  lemma MergedAll(kept: seq<Span>, spans: seq<Span>)
    requires Merged(kept, Sorted(spans), |Sorted(spans)|)
    ensures WellFormed(kept) && Separated(kept) && SameReach(kept, spans)
  {
    var sorted := Sorted(spans);
    assert sorted[..|sorted|] == sorted;
    SameElementsSameReach(sorted, spans);
  }

  /** One turn of the in-place merge. */
  method MergeInPlace(merged: array<Span>, write: nat, read: nat) returns (next: nat)
    requires write <= read < merged.Length
    modifies merged
    ensures write <= next <= read + 1
    ensures merged[..next] == MergeOne(old(merged[..write]), old(merged[read]))
    ensures merged[read + 1..] == old(merged[read + 1..])
  {
    var s := merged[read];
    if s.end < s.start {
      return write;
    }
    if write > 0 && s.start <= merged[write - 1].end {
      if s.end > merged[write - 1].end {
        merged[write - 1] := Span(merged[write - 1].start, s.end);
      }
      return write;
    }
    merged[write] := s;
    return write + 1;
  }

  /**
   The in-place merge over the sorted copy. For lists of two or more spans the result is in normal form and
   reaches exactly the offsets the input reached; shorter lists come back untouched.
  */
  method Normalize(spans: seq<Span>) returns (normalized: seq<Span>)
    ensures |spans| < 2 ==> normalized == spans
    ensures |spans| != 1 ==> WellFormed(normalized) && Separated(normalized)
    ensures SameReach(normalized, spans)
  {
    if |spans| < 2 {
      return spans;
    }
    var sorted := Sorted(spans);
    var merged := new Span[|sorted|](i requires 0 <= i < |sorted| => sorted[i]);
    var write := 0;
    MergedNone(sorted);
    assert merged[..write] == [];
    hide Sorted, Merged, Ordered, Separated, WellFormed, SameReach, MergeOne;
    for read := 0 to merged.Length
      invariant 0 <= write <= read
      invariant merged[read..] == sorted[read..]
      invariant Merged(merged[..write], sorted, read)
    {
      assert merged[read] == sorted[read..][0] && merged[read + 1..] == sorted[read..][1..];
      MergeOneKeeps(merged[..write], sorted, read);
      write := MergeInPlace(merged, write, read);
    }
    MergedAll(merged[..write], spans);
    return merged[..write];
  }

  /** The reach of a normal-form list without its first span. */
  lemma TailReach(spans: seq<Span>, x: int)
    requires spans != [] && WellFormed(spans) && Separated(spans)
    ensures Covers(spans[1..], x) <==> Covers(spans, x) && x > spans[0].end
    ensures Touches(spans[1..], x) <==> Touches(spans, x) && x > spans[0].end
  {
    assert spans == [spans[0]] + spans[1..];
    forall s | s in spans[1..]
      ensures s in spans && s.start > spans[0].end
    {
    }
    forall s | s in spans
      ensures s == spans[0] || s in spans[1..]
    {
    }
  }

  lemma OnlyEmptyReachesNothing(spans: seq<Span>)
    requires WellFormed(spans)
    ensures spans == [] <==> forall x: int :: !Touches(spans, x)
  {
    if spans != [] {
      assert spans[0] in spans;
      assert Touches(spans, spans[0].start);
    }
  }

  /** A normal form is determined by what it reaches, so the result of Normalize is too. */
  lemma {:induction false} NormalFormIsUnique(left: seq<Span>, right: seq<Span>)
    requires WellFormed(left) && Separated(left) && WellFormed(right) && Separated(right)
    requires SameReach(left, right)
    ensures left == right
  {
    if left == [] || right == [] {
      OnlyEmptyReachesNothing(left);
      OnlyEmptyReachesNothing(right);
    } else {
      SameFirst(left, right);
      SameFirst(right, left);
      forall x: int
        ensures Covers(left[1..], x) <==> Covers(right[1..], x)
        ensures Touches(left[1..], x) <==> Touches(right[1..], x)
      {
        TailReach(left, x);
        TailReach(right, x);
      }
      NormalFormIsUnique(left[1..], right[1..]);
      assert left == [left[0]] + left[1..] && right == [right[0]] + right[1..];
    }
  }

  lemma SameFirst(left: seq<Span>, right: seq<Span>)
    requires left != [] && right != []
    requires WellFormed(left) && Separated(left) && WellFormed(right) && Separated(right)
    requires SameReach(left, right)
    ensures left[0].start >= right[0].start && (left[0].start == right[0].start ==> left[0].end <= right[0].end)
  {
    assert Touches(left, left[0].start);
    forall s | s in right
      ensures s == right[0] || s.start > right[0].end
    {
    }
    assert left[0] in left && !Covers(right, right[0].end) && !Covers(left, right[0].end);
  }

  // ----- rendering

  /** The one shape of input the renderer mishandles: a lone span that ends, inside the window, before it starts. */
  predicate SoleInverted(spans: seq<Span>, start: int, size: nat) {
    |spans| == 1 && start < spans[0].end < spans[0].start < start + size
  }

  /** The marker of an empty span at this offset has been written, but not yet the byte there. */
  ghost predicate Pending(spans: seq<Span>, done: nat, start: int, size: nat, position: int)
    requires done <= |spans|
  {
    position < start + size && exists j | 0 <= j < done :: spans[j].start == position == spans[j].end
  }

  /** In a separated list the neighbours of a span are free, and an empty span stands alone. */
  lemma SeparatedReach(spans: seq<Span>, k: nat, x: int)
    requires WellFormed(spans) && Separated(spans) && k < |spans|
    requires (k == 0 || spans[k - 1].end < x) && x <= spans[k].end
    ensures Touches(spans, x) <==> spans[k].start <= x
    ensures Covers(spans, x) <==> spans[k].start <= x < spans[k].end
    ensures spans[k].start <= x ==> (Covers(spans, x - 1) <==> spans[k].start < x)
  {
    assert spans[k] in spans;
    forall s | s in spans && s != spans[k]
      ensures !(s.start <= x <= s.end) && !(spans[k].start <= x && s.start <= x - 1 < s.end)
    {
      var j :| 0 <= j < |spans| && spans[j] == s;
      if j < k {
        assert spans[j].end <= spans[k - 1].end;
      }
    }
  }

  /** Past the last span nothing is touched. */
  lemma BeyondReach(spans: seq<Span>, x: int)
    requires WellFormed(spans) && Separated(spans)
    requires spans == [] || spans[|spans| - 1].end < x
    ensures !Touches(spans, x) && !Covers(spans, x)
  {
    forall s | s in spans
      ensures s.end < x
    {
      var j :| 0 <= j < |spans| && spans[j] == s;
      assert spans[j].end <= spans[|spans| - 1].end;
    }
  }

  /** Offsets strictly between the spans already passed and the next one are free. */
  lemma FreeOffset(spans: seq<Span>, k: nat, x: int)
    requires WellFormed(spans) && Separated(spans) && k <= |spans|
    requires k > 0 ==> spans[k - 1].end < x
    requires k < |spans| ==> x < spans[k].start
    ensures !Touches(spans, x) && !Covers(spans, x)
  {
    if k < |spans| { SeparatedReach(spans, k, x); } else { BeyondReach(spans, x); }
  }

  /** The first free offset after a passed span: it still owes the marker of an empty span, and no other. */
  lemma FirstFreeOffset(spans: seq<Span>, k: nat, start: int, value: seq<Byte>, position: int)
    requires WellFormed(spans) && Separated(spans) && k <= |spans|
    requires start <= position < start + |value|
    requires forall j | 0 <= j < k :: spans[j].end <= position
    requires k < |spans| ==> position < spans[k].start
    ensures !Covers(spans, position)
    ensures MarkerAt(spans, start, position) <==> Pending(spans, k, start, |value|, position)
  {
    if k > 0 && spans[k - 1].end == position {
      SeparatedReach(spans, k - 1, position);
      forall j | 0 <= j < k && spans[j].start == position == spans[j].end
        ensures j == k - 1
      {
      }
    } else {
      FreeOffset(spans, k, position);
      assert forall j | 0 <= j < k - 1 :: spans[j].end < spans[k - 1].start;
    }
  }

  /** One free offset of the window: its marker, if it has one, and its byte. */
  lemma FreeCell(spans: seq<Span>, start: int, value: seq<Byte>, n: nat)
    requires n < |value| && !Covers(spans, start + n)
    ensures Cells(spans, start, value, n + 1) ==
            Cells(spans, start, value, n) +
            (if MarkerAt(spans, start, start + n) then Marker(REDACTED) else []) + [Raw(start + n, value[n])]
  {
    hide Marker, Covers, MarkerAt;
  }

  lemma FreeOffsets(spans: seq<Span>, k: nat, start: int, position: int, left: int)
    requires WellFormed(spans) && Separated(spans) && k <= |spans|
    requires forall j | 0 <= j < k :: spans[j].end <= position
    requires k < |spans| ==> left <= spans[k].start
    ensures forall x | position + 1 <= x < left :: !Covers(spans, x) && !MarkerAt(spans, start, x)
  {
    forall x | position + 1 <= x < left
      ensures !Covers(spans, x) && !MarkerAt(spans, start, x)
    {
      FreeOffset(spans, k, x);
    }
  }

  lemma Regroup(a: seq<Token>, b: seq<Token>, c: seq<Token>, d: seq<Token>)
    ensures a + b + c + d == a + b + (c + d)
  {
  }

  lemma RawsSplit(start: int, value: seq<Byte>, from: nat, to: nat)
    requires from < to <= |value|
    ensures Raws(start, value, from, to) == [Raw(start + from, value[from])] + Raws(start, value, from + 1, to)
  {
  }

  /** The free stretch between the spans already passed and the next one is shown byte for byte. */
  lemma FreeStretch(spans: seq<Span>, k: nat, start: int, value: seq<Byte>, from: nat, to: nat)
    requires WellFormed(spans) && Separated(spans) && k <= |spans|
    requires from < to <= |value|
    requires forall j | 0 <= j < k :: spans[j].end <= start + from
    requires k < |spans| ==> start + to <= spans[k].start
    ensures Cells(spans, start, value, to) ==
            Cells(spans, start, value, from) +
            (if Pending(spans, k, start, |value|, start + from) then Marker(REDACTED) else []) +
            Raws(start, value, from, to)
  {
    FirstFreeOffset(spans, k, start, value, start + from);
    FreeOffsets(spans, k, start, start + from, start + to);
    hide Cells, Covers, Touches, MarkerAt, Separated, WellFormed, Pending, Marker, Raws;
    FreeCell(spans, start, value, from);
    PlainCells(spans, start, value, from + 1, to);
    RawsSplit(start, value, from, to);
    Regroup(Cells(spans, start, value, from),
            if MarkerAt(spans, start, start + from) then Marker(REDACTED) else [],
            [Raw(start + from, value[from])], Raws(start, value, from + 1, to));
  }

  /** An empty span inside the window leaves its marker pending. */
  lemma EmptySpanPends(spans: seq<Span>, k: nat, start: int, size: nat)
    requires k < |spans| && spans[k].start == spans[k].end < start + size
    ensures Pending(spans, k + 1, start, size, spans[k].end)
  {
  }

  /** Once a non-empty span has been shown no marker is pending. */
  lemma FullSpanSettles(spans: seq<Span>, k: nat, start: int, size: nat, position: int)
    requires Separated(spans) && k < |spans| && spans[k].start < spans[k].end
    requires position == spans[k].end || start + size <= position
    ensures !Pending(spans, k + 1, start, size, position)
  {
    assert forall j | 0 <= j < k :: spans[j].end < spans[k].start;
  }

  /** The stretch of a non-empty span inside the window. */
  lemma FullSpanCells(spans: seq<Span>, k: nat, start: int, value: seq<Byte>, left: int, position: int)
    requires WellFormed(spans) && Separated(spans) && k < |spans|
    requires start <= left < position <= start + |value|
    requires left == if spans[k].start < start then start else spans[k].start
    requires position <= spans[k].end
    ensures Cells(spans, start, value, position - start) ==
            Cells(spans, start, value, left - start) + Marker(REDACTED)
  {
    forall x | left <= x < position
      ensures Covers(spans, x)
    {
      assert spans[k] in spans && spans[k].start <= x < spans[k].end;
    }
    if left > start {
      assert k > 0 ==> spans[k - 1].end < spans[k].start;
      SeparatedReach(spans, k, left);
    }
    hide Cells, Covers, Touches, Marker, Separated, WellFormed;
    HiddenCells(spans, start, value, left - start, position - start);
  }

  /** What the loop does for one span that shows in the window. */
  lemma VisibleSpan(spans: seq<Span>, k: nat, start: int, value: seq<Byte>, left: int, position: int)
    requires WellFormed(spans) && Separated(spans) && k < |spans|
    requires start <= left < start + |value|
    requires left == if spans[k].start < start then start else spans[k].start
    requires left <= spans[k].end && (spans[k].start < start ==> start < spans[k].end)
    requires position == if start + |value| < spans[k].end then start + |value| else spans[k].end
    ensures Cells(spans, start, value, position - start) +
            (if Pending(spans, k + 1, start, |value|, position) then Marker(REDACTED) else []) ==
            Cells(spans, start, value, left - start) + Marker(REDACTED)
  {
    hide Cells, Pending, Marker, Separated;
    if spans[k].start == spans[k].end {
      EmptySpanPends(spans, k, start, |value|);
    } else {
      FullSpanCells(spans, k, start, value, left, position);
      FullSpanSettles(spans, k, start, |value|, position);
    }
  }

  /** What one span adds to the output, and where the sweep goes on. */
  function ShowSpan(start: int, value: seq<Byte>, position: int, s: Span): (shown: (seq<Token>, int))
    requires start <= position <= start + |value|
    ensures start <= shown.1 <= start + |value|
  {
    var end := start + |value|;
    if (if s.start == s.end then s.start < start || s.start >= end else s.end <= position || s.start >= end) then
      ([], position)
    else
      var left := if position > s.start then position else s.start;
      ((if left > position then Raws(start, value, position - start, left - start) else []) + Marker(REDACTED),
       if end < s.end then end else s.end)
  }

  /** The state of the sweep when the first k spans of a normal-form list are behind it. */
  ghost predicate Swept(spans: seq<Span>, k: nat, start: int, value: seq<Byte>, position: int, result: seq<Token>)
    requires k <= |spans|
  {
    && start <= position <= start + |value|
    && (forall j | 0 <= j < k :: spans[j].end <= position || position == start + |value| ||
                                start + |value| <= spans[j].start)
    && (forall j | k <= j < |spans| ::
          position < spans[j].start || position == start || start + |value| <= spans[j].start)
    && result == Cells(spans, start, value, position - start) +
                 (if Pending(spans, k, start, |value|, position) then Marker(REDACTED) else [])
  }

  /** A span the window does not show leaves the sweep where it was. */
  predicate IsSkipped(start: int, size: nat, position: int, s: Span) {
    s.start >= start + size || (if s.start == s.end then s.start < start else s.end <= position)
  }

  lemma SkippedSpanPendsNot(spans: seq<Span>, k: nat, start: int, size: nat, position: int)
    requires k < |spans| && start <= position && IsSkipped(start, size, position, spans[k])
    ensures Pending(spans, k + 1, start, size, position) <==> Pending(spans, k, start, size, position)
  {
  }

  lemma SweepSkipped(spans: seq<Span>, k: nat, start: int, value: seq<Byte>, position: int, result: seq<Token>)
    requires WellFormed(spans) && Separated(spans) && k < |spans|
    requires value != [] && Swept(spans, k, start, value, position, result)
    requires IsSkipped(start, |value|, position, spans[k])
    ensures Swept(spans, k + 1, start, value, position, result)
  {
    SkippedSpanPendsNot(spans, k, start, |value|, position);
    hide Cells, Pending, Marker, Separated;
  }

  lemma SweepPlaces(spans: seq<Span>, k: nat, start: int, value: seq<Byte>, position: int)
    requires WellFormed(spans) && Separated(spans) && k < |spans|
    requires start <= position < start + |value| && !IsSkipped(start, |value|, position, spans[k])
    ensures var next := if start + |value| < spans[k].end then start + |value| else spans[k].end;
      && (forall j | 0 <= j < k + 1 :: spans[j].end <= next || next == start + |value|)
      && (forall j | k + 1 <= j < |spans| :: next < spans[j].start || start + |value| <= spans[j].start)
  {
  }

  /** Everything up to the left edge of a shown span has been written out, and its marker. */
  lemma SweepWrites(spans: seq<Span>, k: nat, start: int, value: seq<Byte>, position: int, result: seq<Token>,
                    left: int)
    requires WellFormed(spans) && Separated(spans) && k < |spans|
    requires value != [] && Swept(spans, k, start, value, position, result)
    requires !IsSkipped(start, |value|, position, spans[k])
    requires left == if position > spans[k].start then position else spans[k].start
    ensures left == (if spans[k].start < start then start else spans[k].start) < start + |value|
    ensures result + ShowSpan(start, value, position, spans[k]).0 ==
            Cells(spans, start, value, left - start) + Marker(REDACTED)
    ensures ShowSpan(start, value, position, spans[k]).1 ==
            if start + |value| < spans[k].end then start + |value| else spans[k].end
  {
    if left > position {
      hide Cells, Covers, Touches, Separated, WellFormed, Pending, Marker, Raws;
      FreeStretch(spans, k, start, value, position - start, left - start);
      Regroup(Cells(spans, start, value, position - start),
              if Pending(spans, k, start, |value|, position) then Marker(REDACTED) else [],
              Raws(start, value, position - start, left - start), Marker(REDACTED));
    } else {
      assert !Pending(spans, k, start, |value|, position);
      hide Cells, Separated, WellFormed, Pending, Marker, Raws;
      assert ShowSpan(start, value, position, spans[k]).0 == [] + Marker(REDACTED) == Marker(REDACTED);
    }
  }

  lemma SweepShown(spans: seq<Span>, k: nat, start: int, value: seq<Byte>, position: int, result: seq<Token>)
    requires WellFormed(spans) && Separated(spans) && k < |spans|
    requires value != [] && Swept(spans, k, start, value, position, result)
    requires !IsSkipped(start, |value|, position, spans[k])
    ensures var (shown, next) := ShowSpan(start, value, position, spans[k]);
      Swept(spans, k + 1, start, value, next, result + shown)
  {
    hide Cells, Pending, Marker, Raws, Separated;
    var left := if position > spans[k].start then position else spans[k].start;
    var (shown, next) := ShowSpan(start, value, position, spans[k]);
    SweepWrites(spans, k, start, value, position, result, left);
    SweepPlaces(spans, k, start, value, position);
    assert result + shown == Cells(spans, start, value, next - start) +
                             (if Pending(spans, k + 1, start, |value|, next) then Marker(REDACTED) else []) by {
      VisibleSpan(spans, k, start, value, left, next);
    }
  }

  lemma SweepOne(spans: seq<Span>, k: nat, start: int, value: seq<Byte>, position: int, result: seq<Token>)
    requires WellFormed(spans) && Separated(spans) && k < |spans|
    requires value != [] && Swept(spans, k, start, value, position, result)
    ensures var (shown, next) := ShowSpan(start, value, position, spans[k]);
      Swept(spans, k + 1, start, value, next, result + shown)
  {
    hide Cells, Pending, Marker, Raws, Separated, Swept;
    if IsSkipped(start, |value|, position, spans[k]) {
      SweepSkipped(spans, k, start, value, position, result);
      assert result + [] == result;
    } else {
      SweepShown(spans, k, start, value, position, result);
    }
  }

  /** What the program shows for a lone span that ends before it starts: inside the window, some bytes twice. */
  function InvertedShown(start: int, value: seq<Byte>, s: Span): seq<Token>
    requires s.end < s.start
  {
    if SoleInverted([s], start, |value|) then
      Raws(start, value, 0, s.start - start) + Marker(REDACTED) + Raws(start, value, s.end - start, |value|)
    else
      Raws(start, value, 0, |value|)
  }

  lemma SweepInverted(start: int, value: seq<Byte>, s: Span)
    requires s.end < s.start
    ensures var (shown, next) := ShowSpan(start, value, start, s);
      [] + shown + Raws(start, value, next - start, |value|) == InvertedShown(start, value, s)
  {
  }

  lemma SweptBack(spans: seq<Span>, k: nat, start: int, value: seq<Byte>, position: int, result: seq<Token>)
    requires 0 < k <= |spans| && Swept(spans, k, start, value, position, result)
    requires start + |value| <= spans[k - 1].start
    ensures Swept(spans, k - 1, start, value, position, result)
  {
    SkippedSpanPendsNot(spans, k - 1, start, |value|, position);
    hide Cells, Pending, Marker;
  }

  lemma SweptToEdge(spans: seq<Span>, k: nat, start: int, value: seq<Byte>, position: int, result: seq<Token>)
    requires WellFormed(spans) && Separated(spans) && k <= |spans|
    requires Swept(spans, k, start, value, position, result)
    requires position < start + |value|
    requires (k > 0 ==> spans[k - 1].start < start + |value|) && (k < |spans| ==> start + |value| <= spans[k].start)
    ensures result + Raws(start, value, position - start, |value|) == Cells(spans, start, value, |value|)
  {
    assert forall j | 0 <= j < k :: spans[j].end <= position;
    hide Cells, Pending, Marker, Separated, Raws;
    FreeStretch(spans, k, start, value, position - start, |value|);
  }

  /** When no span is left, the rest of the window is free. */
  lemma {:induction false} SweepEnds(spans: seq<Span>, k: nat, start: int, value: seq<Byte>, position: int,
                                     result: seq<Token>)
    requires WellFormed(spans) && Separated(spans) && k <= |spans|
    requires value != [] && Swept(spans, k, start, value, position, result)
    requires k < |spans| ==> start + |value| <= spans[k].start
    ensures result + Raws(start, value, position - start, |value|) == Cells(spans, start, value, |value|)
  {
    if position == start + |value| {
      assert Raws(start, value, |value|, |value|) == [];
    } else if k > 0 && start + |value| <= spans[k - 1].start {
      SweptBack(spans, k, start, value, position, result);
      hide Cells, Swept, Raws;
      SweepEnds(spans, k - 1, start, value, position, result);
    } else {
      SweptToEdge(spans, k, start, value, position, result);
    }
  }

  /** The state of the sweep after k spans, for normal forms and for a lone inverted span. */
  ghost predicate SweepState(spans: seq<Span>, k: nat, start: int, value: seq<Byte>, position: int, result: seq<Token>)
    requires k <= |spans|
  {
    && start <= position <= start + |value|
    && (value != [] && WellFormed(spans) && Separated(spans) ==> Swept(spans, k, start, value, position, result))
    && (|spans| == 1 && spans[0].end < spans[0].start ==>
          if k == 0 then position == start && result == []
          else result + Raws(start, value, position - start, |value|) == InvertedShown(start, value, spans[0]))
  }

  lemma SweepBegins(spans: seq<Span>, start: int, value: seq<Byte>)
    ensures SweepState(spans, 0, start, value, start, [])
  {
    hide InvertedShown, WellFormed, Separated;
  }

  lemma SweepGoesOn(spans: seq<Span>, k: nat, start: int, value: seq<Byte>, position: int, result: seq<Token>)
    requires k < |spans| && SweepState(spans, k, start, value, position, result)
    ensures var (shown, next) := ShowSpan(start, value, position, spans[k]);
      SweepState(spans, k + 1, start, value, next, result + shown)
  {
    hide InvertedShown, Swept, ShowSpan, Separated, WellFormed;
    if value != [] && WellFormed(spans) && Separated(spans) {
      SweepOne(spans, k, start, value, position, result);
    }
    if |spans| == 1 && spans[0].end < spans[0].start {
      SweepInverted(start, value, spans[0]);
    }
  }

  lemma SweepDone(spans: seq<Span>, start: int, value: seq<Byte>, position: int, result: seq<Token>)
    requires SweepState(spans, |spans|, start, value, position, result)
    ensures var whole := result + Raws(start, value, position - start, |value|);
      && (value != [] && WellFormed(spans) && Separated(spans) ==> whole == Cells(spans, start, value, |value|))
      && (|spans| == 1 && spans[0].end < spans[0].start ==> whole == InvertedShown(start, value, spans[0]))
  {
    hide InvertedShown, Swept, Separated, WellFormed, Cells, Raws;
    if value != [] && WellFormed(spans) && Separated(spans) {
      SweepEnds(spans, |spans|, start, value, position, result);
    }
  }

  /** The sweep over a normalised span list. */
  method Sweep(start: int, value: seq<Byte>, spans: seq<Span>) returns (result: seq<Token>)
    ensures value != [] && WellFormed(spans) && Separated(spans) ==> result == Cells(spans, start, value, |value|)
    ensures |spans| == 1 && spans[0].end < spans[0].start ==> result == InvertedShown(start, value, spans[0])
  {
    var position := start;
    result := [];
    SweepBegins(spans, start, value);
    hide SweepState, ShowSpan, InvertedShown, Separated, WellFormed, Cells;
    for k := 0 to |spans|
      invariant start <= position <= start + |value|
      invariant SweepState(spans, k, start, value, position, result)
    {
      SweepGoesOn(spans, k, start, value, position, result);
      var (shown, next) := ShowSpan(start, value, position, spans[k]);
      result, position := result + shown, next;
    }
    SweepDone(spans, start, value, position, result);
    if position < start + |value| {
      result := result + Raws(start, value, position - start, |value|);
    }
  }

  /** Byte for byte, InvertedShown differs from the reference exactly for the sole inverted span. */
  lemma InvertedCells(start: int, value: seq<Byte>, s: Span)
    requires s.end < s.start
    ensures InvertedShown(start, value, s) == Cells([s], start, value, |value|) <==> !SoleInverted([s], start, |value|)
  {
    PlainCells([s], start, value, 0, |value|);
  }

  /**
   Redaction of one window. For every list of spans, in any order, overlapping or nested, the window shows what
   Cells says of the raw list; the only exception is a lone span that ends inside the window before it starts.
  */
  method RedactWindow(start: int, value: seq<Byte>, spans: seq<Span>) returns (result: seq<Token>)
    ensures value != [] ==> (result == Cells(spans, start, value, |value|) <==> !SoleInverted(spans, start, |value|))
  {
    var normalized := Normalize(spans);
    result := Sweep(start, value, normalized);
    SameCells(normalized, spans, start, value, |value|);
    if |spans| == 1 && spans[0].end < spans[0].start {
      assert spans == [spans[0]];
      InvertedCells(start, value, spans[0]);
    }
  }

  // ----- what a window shows

  /** The bytes a window shows are exactly its uncovered ones. */
  lemma {:induction false} CellsShowUncovered(spans: seq<Span>, start: int, value: seq<Byte>, n: nat, t: Token)
    requires n <= |value| && t.Raw?
    ensures t in Cells(spans, start, value, n) <==>
            start <= t.offset < start + n && t.value == value[t.offset - start] && !Covers(spans, t.offset)
  {
    hide Covers, Cell;
    if n != 0 {
      var before, cell := Cells(spans, start, value, n - 1), Cell(spans, start, value, n - 1);
      assert Cells(spans, start, value, n) == before + cell;
      hide Cells;
      CellsShowUncovered(spans, start, value, n - 1, t);
      CellShows(spans, start, value, n - 1, t);
      assert t in before + cell <==> t in before || t in cell;
    }
  }

  lemma CellShows(spans: seq<Span>, start: int, value: seq<Byte>, k: nat, t: Token)
    requires k < |value| && t.Raw?
    ensures t in Cell(spans, start, value, k) <==> t == Raw(start + k, value[k]) && !Covers(spans, start + k)
  {
    hide Covers, MarkerAt;
    var marker := Marker(REDACTED);
    assert t !in marker;
  }
}
