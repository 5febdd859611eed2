/**
 The bounded process stream: first and last bytes, total, and the rendered output
 (internal/service/aggregate.go:272-346, 430-492).
*/
module Stream {
  import opened Bytes
  import opened Spans
  import opened RedactionSpec
  import opened Scanner
  import opened WindowRender

  const TRUNCATION := "\n[wtree: output truncated]\n"

  function First<T>(count: nat, items: seq<T>): (r: seq<T>)
    ensures |r| <= count && r <= items
  {
    if |items| <= count then items else items[..count]
  }

  function Last<T>(count: nat, items: seq<T>): (r: seq<T>)
    ensures |r| <= count && |r| <= |items| && r == items[|items| - |r|..]
  {
    if |items| <= count then items else items[|items| - count..]
  }

  /** Filling up the head buffer. */
  function AppendHead(inspection: nat, head: seq<Byte>, value: seq<Byte>): seq<Byte> {
    var remaining := inspection - |head|;
    if remaining <= 0 || |value| == 0 then head
    else head + value[..if remaining > |value| then |value| else remaining]
  }

  /** Sliding the tail buffer. */
  function AppendTail(inspection: nat, tail: seq<Byte>, value: seq<Byte>): seq<Byte>
    requires |tail| <= inspection
  {
    if |value| == 0 then tail
    else if |value| >= inspection then value[|value| - inspection..]
    else if |tail| + |value| <= inspection then tail + value
    else tail[|tail| - (inspection - |value|)..] + value
  }

  lemma HeadFollows(inspection: nat, text: seq<Byte>, value: seq<Byte>)
    ensures AppendHead(inspection, First(inspection, text), value) == First(inspection, text + value)
  {
    var whole := text + value;
    if |whole| > inspection {
      if |text| < inspection {
        assert whole[..inspection] == text + value[..inspection - |text|];
      } else {
        assert whole[..inspection] == text[..inspection];
      }
    }
  }

  /** The last k bytes of a concatenation. */
  lemma LastOfConcat(a: seq<Byte>, b: seq<Byte>, k: nat)
    requires k <= |a| + |b|
    ensures k <= |b| ==> (a + b)[|a + b| - k..] == b[|b| - k..]
    ensures k > |b| ==> (a + b)[|a + b| - k..] == a[|a| - (k - |b|)..] + b
  {
  }

  lemma DropTwice(a: seq<Byte>, i: nat, j: nat)
    requires i + j <= |a|
    ensures a[i..][j..] == a[i + j..]
  {
  }

  /** A short write slides the window over a long text. */
  lemma TailSlides(inspection: nat, text: seq<Byte>, value: seq<Byte>)
    requires 0 < |value| < inspection < |text|
    ensures AppendTail(inspection, Last(inspection, text), value) == Last(inspection, text + value)
  {
    var from := |text| - inspection;
    LastOfConcat(text, value, inspection);
    DropTwice(text, from, |value|);
    assert Last(inspection, text) == text[from..];
    assert AppendTail(inspection, text[from..], value) == text[from..][|value|..] + value;
    assert Last(inspection, text + value) == (text + value)[|text + value| - inspection..];
  }

  /** A long write leaves nothing of what was there. */
  lemma TailReplaced(inspection: nat, text: seq<Byte>, value: seq<Byte>)
    requires 0 < |value| && inspection <= |value| && |text| + |value| > inspection
    ensures AppendTail(inspection, Last(inspection, text), value) == Last(inspection, text + value)
  {
    LastOfConcat(text, value, inspection);
    assert AppendTail(inspection, Last(inspection, text), value) == value[|value| - inspection..];
    hide AppendTail;
    assert Last(inspection, text + value) == (text + value)[|text + value| - inspection..];
  }

  /** A short write to a short text. */
  lemma TailFills(inspection: nat, text: seq<Byte>, value: seq<Byte>)
    requires |text| <= inspection && 0 < |value| < inspection < |text| + |value|
    ensures AppendTail(inspection, Last(inspection, text), value) == Last(inspection, text + value)
  {
    assert Last(inspection, text) == text;
    LastOfConcat(text, value, inspection);
    assert Last(inspection, text + value) == (text + value)[|text + value| - inspection..];
  }

  lemma TailGrows(inspection: nat, text: seq<Byte>, value: seq<Byte>)
    requires value == [] || |text| + |value| <= inspection
    ensures AppendTail(inspection, Last(inspection, text), value) == Last(inspection, text + value)
  {
    if value == [] {
      assert text + value == text;
    }
  }

  lemma TailFollows(inspection: nat, text: seq<Byte>, value: seq<Byte>)
    ensures AppendTail(inspection, Last(inspection, text), value) == Last(inspection, text + value)
  {
    hide AppendTail, Last;
    if |value| == 0 || |text| + |value| <= inspection {
      TailGrows(inspection, text, value);
    } else if |value| < inspection < |text| {
      TailSlides(inspection, text, value);
    } else if |value| < inspection {
      TailFills(inspection, text, value);
    } else {
      TailReplaced(inspection, text, value);
    }
  }

  /** However the bytes arrive, the buffers hold the first and the last ones of everything written. */
  lemma BuffersFollow(inspection: nat, text: seq<Byte>, value: seq<Byte>)
    ensures AppendHead(inspection, First(inspection, text), value) == First(inspection, text + value)
    ensures AppendTail(inspection, Last(inspection, text), value) == Last(inspection, text + value)
  {
    HeadFollows(inspection, text, value);
    TailFollows(inspection, text, value);
  }

  datatype Snapshot = Snapshot(head: seq<Byte>, tail: seq<Byte>, total: nat, headSpans: seq<Span>, tailSpans: seq<Span>)
  {
    /** The whole stream, put together from two overlapping windows. */
    function Reconstruct(inspection: nat): seq<Byte>
      requires total <= inspection || (total <= |head| + |tail| && |head| + |tail| - total <= |tail|)
    {
      if total <= inspection then head else head + tail[|head| + |tail| - total..]
    }
  }

  /** The snapshot of a finished stream, as a function of its text. */
  function SnapshotOf(inspection: nat, text: seq<Byte>): Snapshot {
    Snapshot(First(inspection, text), Last(inspection, text), |text|,
             StartingBefore(AllSpans(text), inspection), EndingAfter(AllSpans(text), |text| - inspection))
  }

  lemma ReconstructIsWhole(inspection: nat, text: seq<Byte>)
    requires |text| <= 2 * inspection
    ensures var s := SnapshotOf(inspection, text);
      && (|text| <= inspection || (|text| <= |s.head| + |s.tail| && |s.head| + |s.tail| - |text| <= |s.tail|))
      && s.Reconstruct(inspection) == text
  {
    hide AllSpans, StartingBefore, EndingAfter;
  }

  /**
   What is returned: the complete bytes, which still go through the visible-output expressions, or the shown
   tokens of a stream too long to keep.
  */
  datatype Rendering = Complete(raw: seq<Byte>) | Truncated(shown: seq<Token>)

  // ----- reference definition

  /** The two windows of a long stream, decided offset by offset from the spans of the whole stream. */
  ghost function HeadShown(inspection: nat, text: seq<Byte>): seq<Token>
    requires inspection <= |text|
  {
    Cells(AllSpans(text), 0, text[..inspection], inspection)
  }

  ghost function TailShown(inspection: nat, text: seq<Byte>): seq<Token>
    requires inspection <= |text|
  {
    var from := |text| - inspection;
    Cells(AllSpans(text), from, text[from..], inspection)
  }

  ghost function ExpectedRendering(inspection: nat, retained: nat, text: seq<Byte>): Rendering {
    if |text| <= 2 * inspection then Complete(text)
    else Truncated(First(retained, HeadShown(inspection, text)) + Marker(TRUNCATION) +
                   Last(retained, TailShown(inspection, text)))
  }

  // ----- what the kept spans show

  /** The last window as the spans show it that are still held at the end. */
  ghost function TailKept(inspection: nat, text: seq<Byte>): seq<Token>
    requires inspection <= |text|
  {
    var from := |text| - inspection;
    Cells(EndingAfter(AllSpans(text), from), from, text[from..], inspection)
  }

  ghost function KeptRendering(inspection: nat, retained: nat, text: seq<Byte>): Rendering {
    if |text| <= 2 * inspection then Complete(text)
    else Truncated(First(retained, HeadShown(inspection, text)) + Marker(TRUNCATION) +
                   Last(retained, TailKept(inspection, text)))
  }

  /** An empty span lies right at the offset, and nothing covered meets it: pruning drops it, and its marker. */
  ghost predicate EdgeMarkerLost(text: seq<Byte>, from: int) {
    var all := AllSpans(text);
    Touches(all, from) && !Covers(all, from) && !Covers(all, from - 1)
  }

  /** The marker of an empty span right at the offset, with nothing covered around. */
  ghost function EdgeMarker(spans: seq<Span>, from: int): seq<Token> {
    if Touches(spans, from) && !Covers(spans, from) && !Covers(spans, from - 1) then Marker(REDACTED) else []
  }

  /** What pruning does to the cells of the last window: at most the marker in front is missing. */
  lemma {:induction false} PrunedCells(spans: seq<Span>, from: int, value: seq<Byte>, n: nat)
    requires WellFormed(spans) && 0 < n <= |value|
    ensures Cells(spans, from, value, n) ==
            EdgeMarker(spans, from) + Cells(EndingAfter(spans, from), from, value, n)
  {
    var kept := EndingAfter(spans, from);
    PrunedCell(spans, from, value, n - 1);
    OneMoreCell(spans, from, value, n);
    OneMoreCell(kept, from, value, n);
    NoCells(spans, from, value);
    NoCells(kept, from, value);
    if n > 1 {
      PrunedCells(spans, from, value, n - 1);
    }
    hide *;
    InFront(EdgeMarker(spans, from), Cells(spans, from, value, n - 1), Cells(kept, from, value, n - 1),
            Cell(spans, from, value, n - 1), Cell(kept, from, value, n - 1), n == 1);
  }

  /** What stands in front stays in front when both sides grow by the same. */
  lemma InFront(e: seq<Token>, s: seq<Token>, k: seq<Token>, d: seq<Token>, c: seq<Token>, first: bool)
    requires if first then s == [] && k == [] && d == e + c else s == e + k && d == c
    ensures s + d == e + (k + c)
  {
  }

  lemma NoCells(spans: seq<Span>, from: int, value: seq<Byte>)
    ensures Cells(spans, from, value, 0) == []
  {
  }

  lemma OneMoreCell(spans: seq<Span>, from: int, value: seq<Byte>, n: nat)
    requires 0 < n <= |value|
    ensures Cells(spans, from, value, n) == Cells(spans, from, value, n - 1) + Cell(spans, from, value, n - 1)
  {
  }

  lemma PrunedCell(spans: seq<Span>, from: int, value: seq<Byte>, k: nat)
    requires WellFormed(spans) && k < |value|
    ensures Cell(spans, from, value, k) ==
            if k == 0 then EdgeMarker(spans, from) + Cell(EndingAfter(spans, from), from, value, k)
            else Cell(EndingAfter(spans, from), from, value, k)
  {
    var kept, x := EndingAfter(spans, from), from + k;
    RetainedMembers(spans, from);
    hide EndingAfter, Marker;
    assert Covers(kept, x) <==> Covers(spans, x);
    assert k > 0 ==> (Covers(kept, x - 1) <==> Covers(spans, x - 1)) && (Touches(kept, x) <==> Touches(spans, x));
    assert Touches(kept, from) ==> Covers(kept, from);
    assert [] + Cell(kept, from, value, k) == Cell(kept, from, value, k);
  }

  /**
   The last window is shown as the spans of the whole stream would show it, except exactly when an empty span lies at
   its left edge with nothing covered around: then its marker is missing in front, and nothing else.
  */
  lemma TailKeptIff(inspection: nat, text: seq<Byte>)
    requires 0 < inspection <= |text|
    ensures var lost := EdgeMarkerLost(text, |text| - inspection);
            && (TailKept(inspection, text) == TailShown(inspection, text) <==> !lost)
            && (lost ==> TailShown(inspection, text) == Marker(REDACTED) + TailKept(inspection, text))
  {
    var from := |text| - inspection;
    AllEndsIncrease(text);
    PrunedCells(AllSpans(text), from, text[from..], inspection);
    hide AllSpans, Cells, EndingAfter, Covers, Touches;
    assert |Marker(REDACTED)| > 0;
    var kept := TailKept(inspection, text);
    assert [] + kept == kept;
    assert |Marker(REDACTED) + kept| > |kept|;
  }

  /** The marker at the left edge of the last window is missing, and would have been shown. */
  ghost predicate MarkerMissing(inspection: nat, retained: nat, text: seq<Byte>) {
    2 * inspection < |text| && EdgeMarkerLost(text, |text| - inspection) && |TailKept(inspection, text)| < retained
  }

  /** The output is the expected one exactly when no marker is missing. */
  lemma KeptRenderingIff(inspection: nat, retained: nat, text: seq<Byte>)
    requires 0 < inspection
    ensures KeptRendering(inspection, retained, text) == ExpectedRendering(inspection, retained, text) <==>
            !MarkerMissing(inspection, retained, text)
  {
    if 2 * inspection < |text| {
      TailKeptIff(inspection, text);
      hide TailKept, TailShown, HeadShown, EdgeMarkerLost;
      var kept, shown := TailKept(inspection, text), TailShown(inspection, text);
      var before := First(retained, HeadShown(inspection, text)) + Marker(TRUNCATION);
      LastBehind(retained, Marker(REDACTED), kept);
      assert before + Last(retained, kept) == before + Last(retained, shown) <==>
             Last(retained, kept) == Last(retained, shown) by {
        SameBehind(before, Last(retained, kept), Last(retained, shown));
      }
    }
  }

  lemma SameBehind(front: seq<Token>, a: seq<Token>, b: seq<Token>)
    ensures front + a == front + b <==> a == b
  {
    assert (front + a)[|front|..] == a && (front + b)[|front|..] == b;
  }

  lemma LastBehind(count: nat, front: seq<Token>, items: seq<Token>)
    requires front != []
    ensures Last(count, items) == Last(count, front + items) <==> count <= |items|
  {
  }

  /** The spans kept for the first window show it as all spans of the stream would. */
  lemma HeadSpansSuffice(inspection: nat, text: seq<Byte>)
    requires inspection <= |text|
    ensures Cells(StartingBefore(AllSpans(text), inspection), 0, text[..inspection], inspection) ==
            HeadShown(inspection, text)
  {
    var all := AllSpans(text);
    var kept := StartingBefore(all, inspection);
    AllStartsLater(text);
    RetainedMembers(all, inspection);
    hide AllSpans, StartingBefore;
    forall x | -1 <= x < inspection
      ensures Covers(kept, x) <==> Covers(all, x)
      ensures Touches(kept, x) <==> Touches(all, x)
    {
    }
    SameCells(kept, all, 0, text[..inspection], inspection);
  }

  /** The spans kept for the last window cover it as all spans of the stream do. */
  lemma TailSpansSuffice(inspection: nat, text: seq<Byte>, x: int)
    requires |text| - inspection <= x
    ensures Covers(EndingAfter(AllSpans(text), |text| - inspection), x) <==> Covers(AllSpans(text), x)
  {
    RetainedMembers(AllSpans(text), |text| - inspection);
    hide AllSpans, EndingAfter;
  }

  lemma AllSpansIsFinal(text: seq<Byte>, scan: Scan, found: seq<Span>)
    requires scan == After(text, |text|) && found == Found(text, |text|)
    ensures AllSpans(text) == found + Unfinished(scan, |text|)
  {
  }

  lemma WindowsAreCut(inspection: nat, text: seq<Byte>)
    requires inspection < |text|
    ensures First(inspection, text) == text[..inspection] && Last(inspection, text) == text[|text| - inspection..]
  {
  }

  /** No recorded span ends before it starts, so the exception of the window renderer does not arise. */
  lemma KeptSpansAreSound(text: seq<Byte>, kept: seq<Span>, start: int, size: nat)
    requires forall s | s in kept :: s in AllSpans(text)
    ensures !SoleInverted(kept, start, size)
  {
    AllEndsIncrease(text);
    if |kept| == 1 {
      assert kept[0] in kept;
    }
    hide AllSpans;
  }

  method RenderHead(inspection: nat, ghost text: seq<Byte>, head: seq<Byte>, headSpans: seq<Span>)
    returns (shown: seq<Token>)
    requires 0 < inspection < |text| && head == First(inspection, text)
    requires headSpans == StartingBefore(AllSpans(text), inspection)
    ensures shown == HeadShown(inspection, text)
  {
    RetainedMembers(AllSpans(text), inspection);
    hide *;
    KeptSpansAreSound(text, headSpans, 0, |head|);
    WindowsAreCut(inspection, text);
    HeadSpansSuffice(inspection, text);
    shown := RedactWindow(0, head, headSpans);
  }

  method RenderTail(inspection: nat, ghost text: seq<Byte>, tailStart: int, tail: seq<Byte>, tailSpans: seq<Span>)
    returns (shown: seq<Token>)
    requires 0 < inspection < |text| && tail == Last(inspection, text) && tailStart == |text| - inspection
    requires tailSpans == EndingAfter(AllSpans(text), |text| - inspection)
    ensures shown == TailKept(inspection, text)
  {
    RetainedMembers(AllSpans(text), tailStart);
    hide AllSpans, EndingAfter, Cells, Last, SoleInverted;
    KeptSpansAreSound(text, tailSpans, tailStart, |tail|);
    WindowsAreCut(inspection, text);
    shown := RedactWindow(tailStart, tail, tailSpans);
  }

  /** Rendering a snapshot: complete when both windows overlap, otherwise the two redacted windows. */
  method RenderOutput(inspection: nat, retained: nat, snapshot: Snapshot, ghost text: seq<Byte>)
    returns (rendering: Rendering)
    requires 0 < inspection && snapshot == SnapshotOf(inspection, text)
    ensures if |text| <= 2 * inspection then rendering == Complete(text) else rendering.Truncated?
    ensures rendering == KeptRendering(inspection, retained, text)
    ensures rendering == ExpectedRendering(inspection, retained, text) <==> !MarkerMissing(inspection, retained, text)
  {
    KeptRenderingIff(inspection, retained, text);
    hide First, Last, StartingBefore, EndingAfter, AllSpans, HeadShown, TailKept, ExpectedRendering, MarkerMissing;
    if snapshot.total <= inspection * 2 {
      ReconstructIsWhole(inspection, text);
      return Complete(snapshot.Reconstruct(inspection));
    }
    WindowsAreCut(inspection, text);
    var head := RenderHead(inspection, text, snapshot.head, snapshot.headSpans);
    var tailStart := snapshot.total - |snapshot.tail|;
    var tail := RenderTail(inspection, text, tailStart, snapshot.tail, snapshot.tailSpans);
    return Truncated(First(retained, head) + Marker(TRUNCATION) + Last(retained, tail));
  }

  // ----- the stream

  class BoundedStream {
    const inspection: nat
    const retained: nat
    var head: seq<Byte>
    var tail: seq<Byte>
    var total: nat
    const scanner: RedactionScanner

    /** Everything written so far. */
    ghost var written: seq<Byte>

    constructor (inspection: nat, retained: nat)
      requires 0 < inspection
      ensures Writing() && written == [] && this.inspection == inspection && this.retained == retained
      ensures fresh(scanner)
    {
      this.inspection, this.retained := inspection, retained;
      head, tail, total := [], [], 0;
      scanner := new RedactionScanner(inspection);
      written := [];
      new;
      scanner.MeansTracks([]);
    }

    ghost predicate Buffers()
      reads this
    {
      && 0 < inspection == scanner.inspection
      && total == |written|
      && head == First(inspection, written)
      && tail == Last(inspection, written)
    }

    /** Bytes may still be written: every field is what the text written so far makes it. */
    ghost predicate Writing()
      reads this, scanner
    {
      Buffers() && scanner.Tracks(written)
    }

    /** The stream has been rendered. */
    ghost predicate Closed()
      reads this, scanner
    {
      Buffers() && scanner.Finished(written)
    }

    method Write(value: seq<Byte>) returns (n: nat)
      requires Writing()
      modifies this, scanner
      ensures Writing() && written == old(written) + value && n == |value|
    {
      hide AppendHead, AppendTail, First, Last, RedactionScanner.Tracks, After, Found;
      BuffersFollow(inspection, written, value);
      scanner.Consume(written, value);
      total := total + |value|;
      head := AppendHead(inspection, head, value);
      tail := AppendTail(inspection, tail, value);
      written := written + value;
      scanner.TracksMeans(written);
      scanner.PruneAgain(written, total);
      return |value|;
    }

    /** Closing the scanner and copying out what the windows need. */
    method TakeSnapshot() returns (snapshot: Snapshot)
      requires Writing() || Closed()
      modifies scanner
      ensures Closed() && written == old(written)
      ensures snapshot == SnapshotOf(inspection, written)
    {
      hide First, Last, After, Found, RedactionScanner.Tracks, StartingBefore, EndingAfter, Discovered;
      if scanner.Tracks(written) {
        scanner.TracksMeans(written);
        AllSpansIsFinal(written, After(written, |written|), Found(written, |written|));
      }
      scanner.Finish();
      scanner.FinishedMeans(written);
      snapshot := Snapshot(head, tail, total, scanner.headSpans, scanner.ActiveTailSpans());
    }

    /**
     Rendering: a stream that fits both windows comes back complete; a longer one shows its two windows with
     every recorded span hidden, offset by offset as the spans of the whole stream say, unless exactly the marker of
     an empty span at the left edge of the last window is missing. Rendering twice gives the same output.
    */
    method Render() returns (rendering: Rendering)
      requires Writing() || Closed()
      modifies scanner
      ensures Closed() && written == old(written)
      ensures |written| <= 2 * inspection ==> rendering == Complete(written)
      ensures |written| > 2 * inspection ==>
                rendering == Truncated(First(retained, HeadShown(inspection, written)) + Marker(TRUNCATION) +
                                       Last(retained, TailKept(inspection, written)))
      ensures rendering == KeptRendering(inspection, retained, written)
      ensures rendering == ExpectedRendering(inspection, retained, written) <==>
              !MarkerMissing(inspection, retained, written)
    {
      hide First, Last, StartingBefore, EndingAfter, AllSpans, RedactionScanner.Finished, RedactionScanner.Tracks;
      hide ExpectedRendering, MarkerMissing, HeadShown, TailKept, Marker;
      var snapshot := TakeSnapshot();
      rendering := RenderOutput(inspection, retained, snapshot, written);
    }
  }
}
