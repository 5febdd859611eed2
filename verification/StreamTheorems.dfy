/** What the rendered output of a process stream shows and hides (internal/service/aggregate.go:272-551). */
module StreamTheorems {
  import opened Bytes
  import opened Spans
  import opened RedactionSpec
  import opened RedactionTheorems
  import opened Scanner
  import opened WindowRender
  import opened Stream

  /** A byte of the stream, with its offset, that a long stream's output shows. */
  ghost predicate Shows(rendering: Rendering, x: int, b: Byte) {
    rendering.Truncated? && Raw(x, b) in rendering.shown
  }

  /** Cutting a window to the retained size keeps tokens of the window, and the separator has no stream bytes. */
  lemma ShownComesFromWindows(inspection: nat, retained: nat, text: seq<Byte>, t: Token)
    requires 2 * inspection < |text| && t.Raw?
    requires t in KeptRendering(inspection, retained, text).shown
    ensures t in HeadShown(inspection, text) || t in TailKept(inspection, text)
  {
    hide HeadShown, TailKept;
    var head, tail := HeadShown(inspection, text), TailKept(inspection, text);
    var marker := Marker(TRUNCATION);
    assert t !in marker;
    assert t in First(retained, head) || t in Last(retained, tail);
  }

  /** The stream bytes in the two windows of a long stream: exactly the uncovered ones. */
  lemma WindowsShowUncovered(inspection: nat, text: seq<Byte>, x: int, b: Byte)
    requires inspection <= |text|
    ensures Raw(x, b) in HeadShown(inspection, text) <==>
            0 <= x < inspection && b == text[x] && !Covers(AllSpans(text), x)
    ensures Raw(x, b) in TailKept(inspection, text) <==>
            |text| - inspection <= x < |text| && b == text[x] && !Covers(AllSpans(text), x)
  {
    hide AllSpans, Covers, EndingAfter, Cells;
    HeadShowsUncovered(inspection, text, x, b);
    TailShowsUncovered(inspection, text, x, b);
  }

  lemma HeadShowsUncovered(inspection: nat, text: seq<Byte>, x: int, b: Byte)
    requires inspection <= |text|
    ensures Raw(x, b) in HeadShown(inspection, text) <==>
            0 <= x < inspection && b == text[x] && !Covers(AllSpans(text), x)
  {
    hide AllSpans, Covers, Cells;
    CellsShowUncovered(AllSpans(text), 0, text[..inspection], inspection, Raw(x, b));
  }

  lemma TailShowsUncovered(inspection: nat, text: seq<Byte>, x: int, b: Byte)
    requires inspection <= |text|
    ensures Raw(x, b) in TailKept(inspection, text) <==>
            |text| - inspection <= x < |text| && b == text[x] && !Covers(AllSpans(text), x)
  {
    hide AllSpans, Covers, EndingAfter, Cells;
    var from := |text| - inspection;
    CellsShowUncovered(EndingAfter(AllSpans(text), from), from, text[from..], inspection, Raw(x, b));
    if from <= x {
      TailSpansSuffice(inspection, text, x);
    }
  }

  // ----- exactly what is shown

  ghost predicate OnlyAt(tokens: seq<Token>, i: int, t: Token)
    ensures OnlyAt(tokens, i, t) ==> t in tokens
  {
    0 <= i < |tokens| && tokens[i] == t && forall j | 0 <= j < |tokens| && tokens[j] == t :: j == i
  }

  /** An uncovered byte of a window stands in one place, behind what the bytes before it show. */
  lemma {:induction false} ByteStandsOnce(spans: seq<Span>, start: int, value: seq<Byte>, k: nat, n: nat)
    requires k < n <= |value| && !Covers(spans, start + k)
    ensures OnlyAt(Cells(spans, start, value, n), |Cells(spans, start, value, k + 1)| - 1, Raw(start + k, value[k]))
  {
    var t := Raw(start + k, value[k]);
    OneMoreCell(spans, start, value, n);
    CellShows(spans, start, value, n - 1, t);
    hide Covers, OnlyAt;
    if n == k + 1 {
      CellsShowUncovered(spans, start, value, k, t);
      CellEnds(spans, start, value, k);
    } else {
      ByteStandsOnce(spans, start, value, k, n - 1);
    }
    hide Cells, Cell;
    var before, cell := Cells(spans, start, value, n - 1), Cell(spans, start, value, n - 1);
    OnlyAtTogether(before, cell, |Cells(spans, start, value, k + 1)| - 1, t);
  }

  lemma OnlyAtTogether(left: seq<Token>, right: seq<Token>, i: int, t: Token)
    requires if t in left then OnlyAt(left, i, t) && t !in right else OnlyAt(right, i - |left|, t)
    ensures OnlyAt(left + right, i, t)
  {
  }

  lemma CellEnds(spans: seq<Span>, start: int, value: seq<Byte>, k: nat)
    requires k < |value| && !Covers(spans, start + k)
    ensures OnlyAt(Cell(spans, start, value, k), |Cell(spans, start, value, k)| - 1, Raw(start + k, value[k]))
  {
    hide Covers, MarkerAt;
    assert Raw(start + k, value[k]) !in Marker(REDACTED);
  }

  lemma OnlyAtCut(tokens: seq<Token>, i: int, t: Token, count: nat)
    requires OnlyAt(tokens, i, t)
    ensures t in First(count, tokens) <==> i < count
    ensures t in Last(count, tokens) <==> |tokens| - i <= count
  {
    if i < count {
      assert First(count, tokens)[i] == t;
    }
    var cut := |tokens| - |Last(count, tokens)|;
    if cut <= i {
      assert Last(count, tokens)[i - cut] == t;
    }
  }

  lemma CutMembers(count: nat, tokens: seq<Token>, t: Token)
    ensures t in First(count, tokens) || t in Last(count, tokens) ==> t in tokens
  {
  }

  /** Of a window cut to size, an uncovered byte is shown if what stands before it, or behind it, leaves room. */
  lemma CutShows(spans: seq<Span>, start: int, value: seq<Byte>, k: nat, count: nat)
    requires k < |value| && !Covers(spans, start + k)
    ensures var cells, upTo := Cells(spans, start, value, |value|), |Cells(spans, start, value, k + 1)|;
            && (Raw(start + k, value[k]) in First(count, cells) <==> upTo <= count)
            && (Raw(start + k, value[k]) in Last(count, cells) <==> |cells| - upTo + 1 <= count)
  {
    ByteStandsOnce(spans, start, value, k, |value|);
    hide Cells, Covers;
    var cells, upTo := Cells(spans, start, value, |value|), |Cells(spans, start, value, k + 1)|;
    OnlyAtCut(cells, upTo - 1, Raw(start + k, value[k]), count);
  }

  /** How many tokens the first window shows up to and including the byte at x. */
  ghost function FromTheLeft(inspection: nat, text: seq<Byte>, x: nat): nat
    requires x < inspection <= |text|
  {
    |Cells(AllSpans(text), 0, text[..inspection], x + 1)|
  }

  /** How many tokens the last window shows from the byte at x on. */
  ghost function FromTheRight(inspection: nat, text: seq<Byte>, x: nat): int
    requires inspection <= |text| && |text| - inspection <= x < |text|
  {
    var from := |text| - inspection;
    |TailKept(inspection, text)| - |Cells(EndingAfter(AllSpans(text), from), from, text[from..], x - from + 1)| + 1
  }

  /**
   The output of a long stream shows exactly these bytes: the uncovered ones of the first window that lie within the
   retained size counted from its left edge, and those of the last window counted from its right edge.
  */
  lemma ShownIff(inspection: nat, retained: nat, text: seq<Byte>, x: nat, b: Byte)
    requires 2 * inspection < |text|
    ensures Shows(KeptRendering(inspection, retained, text), x, b) <==>
            && x < |text| && b == text[x] && !Covers(AllSpans(text), x)
            && (|| (x < inspection && FromTheLeft(inspection, text, x) <= retained)
                || (|text| - inspection <= x && FromTheRight(inspection, text, x) <= retained))
  {
    hide AllSpans, HeadShown, TailKept, Covers, KeptRendering, FromTheLeft, FromTheRight, First, Last;
    InFirstOrLast(inspection, retained, text, Raw(x, b));
    HeadByteIff(inspection, retained, text, x, b);
    TailByteIff(inspection, retained, text, x, b);
  }

  lemma HeadByteIff(inspection: nat, retained: nat, text: seq<Byte>, x: nat, b: Byte)
    requires inspection <= |text|
    ensures Raw(x, b) in First(retained, HeadShown(inspection, text)) <==>
            && x < inspection && b == text[x] && !Covers(AllSpans(text), x)
            && FromTheLeft(inspection, text, x) <= retained
  {
    HeadShowsUncovered(inspection, text, x, b);
    CutMembers(retained, HeadShown(inspection, text), Raw(x, b));
    hide *;
    if x < inspection && b == text[x] && !Covers(AllSpans(text), x) {
      HeadByteShown(inspection, retained, text, x);
    }
  }

  lemma HeadByteShown(inspection: nat, retained: nat, text: seq<Byte>, x: nat)
    requires x < inspection <= |text| && !Covers(AllSpans(text), x)
    ensures Raw(x, text[x]) in First(retained, HeadShown(inspection, text)) <==>
            FromTheLeft(inspection, text, x) <= retained
  {
    hide AllSpans, Covers, Cells, First, Last;
    CutShows(AllSpans(text), 0, text[..inspection], x, retained);
  }

  lemma TailByteIff(inspection: nat, retained: nat, text: seq<Byte>, x: nat, b: Byte)
    requires inspection <= |text|
    ensures Raw(x, b) in Last(retained, TailKept(inspection, text)) <==>
            && |text| - inspection <= x < |text| && b == text[x] && !Covers(AllSpans(text), x)
            && FromTheRight(inspection, text, x) <= retained
  {
    TailShowsUncovered(inspection, text, x, b);
    CutMembers(retained, TailKept(inspection, text), Raw(x, b));
    hide *;
    if |text| - inspection <= x < |text| && b == text[x] && !Covers(AllSpans(text), x) {
      TailByteShown(inspection, retained, text, x);
    }
  }

  lemma TailByteShown(inspection: nat, retained: nat, text: seq<Byte>, x: nat)
    requires inspection <= |text| && |text| - inspection <= x < |text| && !Covers(AllSpans(text), x)
    ensures Raw(x, text[x]) in Last(retained, TailKept(inspection, text)) <==>
            FromTheRight(inspection, text, x) <= retained
  {
    hide AllSpans, Covers, EndingAfter, Cells, First, Last;
    var from := |text| - inspection;
    TailSpansSuffice(inspection, text, x);
    CutShows(EndingAfter(AllSpans(text), from), from, text[from..], x - from, retained);
  }

  lemma InFirstOrLast(inspection: nat, retained: nat, text: seq<Byte>, t: Token)
    requires 2 * inspection < |text| && t.Raw?
    ensures var rendering := KeptRendering(inspection, retained, text);
            rendering.Truncated? && (t in rendering.shown <==>
              t in First(retained, HeadShown(inspection, text)) || t in Last(retained, TailKept(inspection, text)))
  {
    hide HeadShown, TailKept, First, Last;
    assert t !in Marker(TRUNCATION);
  }

  /** Stream bytes come in the order of the stream. */
  ghost predicate InStreamOrder(tokens: seq<Token>) {
    forall i, j | 0 <= i < j < |tokens| && tokens[i].Raw? && tokens[j].Raw? :: tokens[i].offset < tokens[j].offset
  }

  ghost predicate Within(tokens: seq<Token>, from: int, to: int) {
    forall t | t in tokens && t.Raw? :: from <= t.offset < to
  }

  lemma InOrderTogether(left: seq<Token>, right: seq<Token>, from: int, mid: int, to: int)
    requires InStreamOrder(left) && Within(left, from, mid) && InStreamOrder(right) && Within(right, mid, to)
    requires from <= mid <= to
    ensures InStreamOrder(left + right) && Within(left + right, from, to)
  {
    var both := left + right;
    forall i, j | 0 <= i < j < |both| && both[i].Raw? && both[j].Raw?
      ensures both[i].offset < both[j].offset
    {
      assert i < |left| ==> both[i] in left;
      assert j >= |left| ==> both[j] in right;
    }
  }

  lemma CellInOrder(spans: seq<Span>, start: int, value: seq<Byte>, k: nat)
    requires k < |value|
    ensures InStreamOrder(Cell(spans, start, value, k)) &&
            Within(Cell(spans, start, value, k), start + k, start + k + 1)
  {
    hide Covers, MarkerAt;
  }

  lemma {:induction false} CellsInOrder(spans: seq<Span>, start: int, value: seq<Byte>, n: nat)
    requires n <= |value|
    ensures InStreamOrder(Cells(spans, start, value, n)) && Within(Cells(spans, start, value, n), start, start + n)
  {
    if n > 0 {
      CellsInOrder(spans, start, value, n - 1);
      CellInOrder(spans, start, value, n - 1);
      OneMoreCell(spans, start, value, n);
      hide Cells, Cell, InStreamOrder, Within;
      InOrderTogether(Cells(spans, start, value, n - 1), Cell(spans, start, value, n - 1), start, start + n - 1,
                      start + n);
    }
  }

  lemma WindowsInOrder(inspection: nat, text: seq<Byte>)
    requires inspection <= |text|
    ensures InStreamOrder(HeadShown(inspection, text)) && Within(HeadShown(inspection, text), 0, inspection)
    ensures InStreamOrder(TailKept(inspection, text)) &&
            Within(TailKept(inspection, text), |text| - inspection, |text|)
  {
    hide AllSpans, EndingAfter, Cells, InStreamOrder, Within;
    var from := |text| - inspection;
    CellsInOrder(AllSpans(text), 0, text[..inspection], inspection);
    CellsInOrder(EndingAfter(AllSpans(text), from), from, text[from..], inspection);
  }

  /** What is shown of a long stream is in the order of the stream, the first window before the last. */
  lemma ShownInOrder(inspection: nat, retained: nat, text: seq<Byte>)
    requires 2 * inspection < |text|
    ensures var rendering := KeptRendering(inspection, retained, text);
            rendering.Truncated? && InStreamOrder(rendering.shown)
  {
    WindowsInOrder(inspection, text);
    hide AllSpans, HeadShown, TailKept, First, Last;
    var head, tail := HeadShown(inspection, text), TailKept(inspection, text);
    var from := |text| - inspection;
    MarkerInOrder(TRUNCATION, inspection, from);
    hide InStreamOrder, Within, Marker;
    CutInOrder(retained, head, 0, inspection);
    CutInOrder(retained, tail, from, |text|);
    InOrderTogether(First(retained, head), Marker(TRUNCATION), 0, inspection, from);
    InOrderTogether(First(retained, head) + Marker(TRUNCATION), Last(retained, tail), 0, from, |text|);
  }

  lemma MarkerInOrder(marker: string, from: int, to: int)
    ensures InStreamOrder(Marker(marker)) && Within(Marker(marker), from, to)
  {
  }

  lemma CutInOrder(count: nat, tokens: seq<Token>, from: int, to: int)
    requires InStreamOrder(tokens) && Within(tokens, from, to)
    ensures InStreamOrder(First(count, tokens)) && Within(First(count, tokens), from, to)
    ensures InStreamOrder(Last(count, tokens)) && Within(Last(count, tokens), from, to)
  {
  }

  /** No byte inside a recorded span is ever shown, wherever the window edges and the retained sizes fall. */
  lemma CoveredIsNeverShown(inspection: nat, retained: nat, text: seq<Byte>, x: int, b: Byte)
    requires Covers(AllSpans(text), x)
    ensures !Shows(KeptRendering(inspection, retained, text), x, b)
  {
    hide AllSpans, HeadShown, TailKept, Covers;
    if 2 * inspection < |text| && Raw(x, b) in KeptRendering(inspection, retained, text).shown {
      ShownComesFromWindows(inspection, retained, text, Raw(x, b));
      WindowsShowUncovered(inspection, text, x, b);
    }
  }

  /**
   End to end: the value of a sensitive query key, up to a closing '@' if there is one, never reaches the output
   of a long stream.
  */
  lemma SensitiveValueIsNeverShown(inspection: nat, retained: nat, text: seq<Byte>,
                                   p: int, s: int, e: int, x: int, b: Byte)
    requires SensitiveValue(text, p, s, e) && s <= x < e && NoCloseIn(text, s, x + 1)
    ensures !Shows(KeptRendering(inspection, retained, text), x, b)
  {
    hide AllSpans, SensitiveValue, NoCloseIn, KeptRendering;
    ValueCoveredUpTo(text, p, s, e, x);
    CoveredIsNeverShown(inspection, retained, text, x, b);
  }

  /**
   End to end: a userinfo whose authority is being read, or that lies inside a sensitive value, never reaches the output
   of a long stream.
  */
  lemma UserinfoIsNeverShown(inspection: nat, retained: nat, text: seq<Byte>,
                             k: int, s: int, e: int, x: int, b: Byte)
    requires Userinfo(text, k, s, e) && UserinfoIsRead(text, s, e) && s <= x < e
    ensures !Shows(KeptRendering(inspection, retained, text), x, b)
  {
    hide AllSpans, Userinfo, UserinfoIsRead, KeptRendering;
    UserinfoCoveredIff(text, k, s, e);
    CoveredIsNeverShown(inspection, retained, text, x, b);
  }

  /** A window that holds a whole userinfo hides all of it if and only if it is being read. */
  lemma UserinfoIsHiddenIff(inspection: nat, text: seq<Byte>, k: int, s: int, e: int)
    requires inspection <= |text| && Userinfo(text, k, s, e)
    ensures e <= inspection ==>
              ((forall x | s <= x < e :: Raw(x, text[x]) !in HeadShown(inspection, text)) <==>
               UserinfoIsRead(text, s, e))
    ensures |text| - inspection <= s ==>
              ((forall x | s <= x < e :: Raw(x, text[x]) !in TailKept(inspection, text)) <==>
               UserinfoIsRead(text, s, e))
  {
    UserinfoCoveredIff(text, k, s, e);
    hide AllSpans, AuthorityFrom, UserinfoIsRead, HeadShown, TailKept, Covers;
    forall x | s <= x < e
      ensures e <= inspection ==> (Raw(x, text[x]) !in HeadShown(inspection, text) <==> Covers(AllSpans(text), x))
      ensures |text| - inspection <= s ==>
                (Raw(x, text[x]) !in TailKept(inspection, text) <==> Covers(AllSpans(text), x))
    {
      WindowsShowUncovered(inspection, text, x, text[x]);
    }
  }

  /** A marker can be missing: ?auth=& ends with an empty value right at the edge of a last window of one byte. */
  lemma SomeMarkerIsMissing() returns (text: seq<Byte>)
    ensures |text| == 7 && EdgeMarkerLost(text, |text| - 1)
    ensures TailKept(1, text) == [Raw(6, text[6])] && TailShown(1, text) == Marker(REDACTED) + [Raw(6, text[6])]
    ensures KeptRendering(1, |REDACTED| + 1, text) != ExpectedRendering(1, |REDACTED| + 1, text)
  {
    text := [QUESTION, 97, 117, 116, 104, EQUALS, AMPERSAND];
    EmptyValueAtEdge(text);
    TailKeptIff(1, text);
    hide AllSpans, EdgeMarkerLost, Marker, After;
    TailSpansSuffice(1, text, 6);
    KeptEdgeCell(text);
    KeptRenderingIff(1, |REDACTED| + 1, text);
  }

  lemma KeptEdgeCell(text: seq<Byte>)
    requires |text| == 7 && EdgeMarkerLost(text, 6)
    ensures TailKept(1, text) == [Raw(6, text[6])]
  {
    var kept := EndingAfter(AllSpans(text), 6);
    RetainedMembers(AllSpans(text), 6);
    TailSpansSuffice(1, text, 6);
    hide AllSpans, EndingAfter, Marker;
    assert text[6..] == [text[6]];
    assert !Covers(kept, 6) && !Touches(kept, 6);
    assert Cells(kept, 6, text[6..], 0) == [];
  }

  lemma EmptyValueAtEdge(text: seq<Byte>)
    requires text == [QUESTION, 97, 117, 116, 104, EQUALS, AMPERSAND]
    ensures EdgeMarkerLost(text, 6)
  {
    assert LowerAll(text[1..5]) == [97, 117, 116, 104] && IsSensitiveKey([97, 117, 116, 104]);
    assert KeyAt(text, 0, 6) && SensitiveValue(text, 0, 6, 6);
    hide IsSensitiveKey, LowerAll;
    assert KeyOpensAt(text, 0);
    ValueOpens(text, 0, 6);
    SpansCharacterised(text, 6, 6);
    assert IsValueSpan(text, 6, 6);
    assert After(text, 7) == Step(After(text, 6), 6, AMPERSAND);
    forall n, s: int | 0 <= n <= 7
      ensures After(text, n).link != Authority(s)
    {
      hide After;
      AuthorityIsReadIff(text, s, n);
    }
    hide After, AllSpans, KeyAt, KeyOpensAt;
    ForgottenIsNotCovered(text, 5);
    ForgottenIsNotCovered(text, 6);
    assert Span(6, 6) in AllSpans(text);
  }

  /** What is shown is true: only bytes of the stream, at their own offsets, from one of the two windows. */
  lemma ShownIsTrue(inspection: nat, retained: nat, text: seq<Byte>, x: int, b: Byte)
    requires Shows(KeptRendering(inspection, retained, text), x, b)
    ensures 0 <= x < |text| && b == text[x] && (x < inspection || |text| - inspection <= x)
  {
    hide AllSpans, HeadShown, TailKept;
    ShownComesFromWindows(inspection, retained, text, Raw(x, b));
    WindowsShowUncovered(inspection, text, x, b);
  }

  /** The output of a long stream is bounded whatever was written. */
  lemma OutputIsBounded(inspection: nat, retained: nat, text: seq<Byte>)
    ensures KeptRendering(inspection, retained, text).Complete? <==> |text| <= 2 * inspection
    ensures match KeptRendering(inspection, retained, text)
      case Complete(raw) => raw == text
      case Truncated(shown) => |shown| <= 2 * retained + |TRUNCATION|
  {
    hide HeadShown, TailKept;
  }

  /** A long stream with nothing to hide is shown unchanged at both ends. */
  lemma OrdinaryStreamIsUnchanged(inspection: nat, retained: nat, text: seq<Byte>)
    requires 2 * inspection < |text| && retained <= inspection && AllSpans(text) == []
    ensures KeptRendering(inspection, retained, text) ==
            Truncated(Raws(0, text, 0, retained) + Marker(TRUNCATION) + Raws(0, text, |text| - retained, |text|))
  {
    PlainWindows(inspection, text);
    hide HeadShown, TailKept, AllSpans;
    FirstOfRaws(text, inspection, retained);
    LastOfRaws(text, inspection, retained);
    hide First, Last, Raws, Marker;
  }

  lemma PlainWindows(inspection: nat, text: seq<Byte>)
    requires inspection <= |text| && AllSpans(text) == []
    ensures HeadShown(inspection, text) == Raws(0, text, 0, inspection)
    ensures TailKept(inspection, text) == Raws(0, text, |text| - inspection, |text|)
  {
    hide AllSpans;
    var from := |text| - inspection;
    PlainCells([], 0, text[..inspection], 0, inspection);
    PlainCells([], from, text[from..], 0, inspection);
    assert Raws(0, text[..inspection], 0, inspection) == Raws(0, text, 0, inspection);
    assert Raws(from, text[from..], 0, inspection) == Raws(0, text, from, |text|);
  }

  lemma FirstOfRaws(text: seq<Byte>, n: nat, k: nat)
    requires k <= n <= |text|
    ensures First(k, Raws(0, text, 0, n)) == Raws(0, text, 0, k)
  {
  }

  lemma LastOfRaws(text: seq<Byte>, n: nat, k: nat)
    requires k <= n <= |text|
    ensures Last(k, Raws(0, text, |text| - n, |text|)) == Raws(0, text, |text| - k, |text|)
  {
  }

  /** How the bytes were cut into writes leaves no trace. */
  lemma ChunksLeaveNoTrace(a: BoundedStream, b: BoundedStream)
    requires a.inspection == b.inspection && a.written == b.written
    requires a.Writing() && b.Writing()
    ensures a.head == b.head && a.tail == b.tail && a.total == b.total
    ensures a.scanner.State() == b.scanner.State() && a.scanner.position == b.scanner.position
    ensures a.scanner.headSpans == b.scanner.headSpans
    ensures a.scanner.tailSpans[a.scanner.tailSpanStart..] == b.scanner.tailSpans[b.scanner.tailSpanStart..]
  {
    hide After, Found, StartingBefore, EndingAfter, First, Last, Discovered;
  }

  // ----- the list kept for the first window

  /** The spans seen by the first window that run past its end. */
  function Overhang(limit: int, spans: seq<Span>): seq<Span> {
    EndingAfter(StartingBefore(spans, limit), limit - 1)
  }

  /** At most two spans run past the first window: a value, and the userinfo around it. */
  predicate FewOverhang(limit: int, n: nat, scan: Scan, overhang: nat) {
    && overhang <= 2
    && (overhang >= 1 ==> limit < n && (scan.query.Value? ==> limit <= scan.query.start))
    && (overhang >= 2 ==> scan.link.Authority? ==> limit <= scan.link.start)
  }

  lemma OverhangStep(limit: nat, n: nat, scan: Scan, b: Byte, overhang: nat)
    requires FewOverhang(limit, n, scan, overhang) && Sane(scan, n)
    ensures var more :=
              if Emit(scan, n, b) != [] && Emit(scan, n, b)[0].start < limit <= Emit(scan, n, b)[0].end then 1 else 0;
      FewOverhang(limit, n + 1, Step(scan, n, b), overhang + more)
  {
    EmitIsSmall(scan, n, b);
    hide IsSensitiveKey;
  }

  lemma OverhangAppend(limit: nat, spans: seq<Span>, more: seq<Span>)
    requires |more| <= 1 && forall s | s in more :: 0 < s.start <= s.end
    ensures |Overhang(limit, spans + more)| ==
            |Overhang(limit, spans)| + if more != [] && more[0].start < limit <= more[0].end then 1 else 0
  {
    if more == [] {
      assert spans + more == spans;
    } else {
      assert more == [more[0]];
      RetainAppend(spans, more[0], limit);
      RetainAppend(StartingBefore(spans, limit), more[0], limit - 1);
      hide StartingBefore, EndingAfter;
      assert StartingBefore(spans, limit) + [] == StartingBefore(spans, limit);
    }
  }

  lemma {:induction false} FoundOverhangsLittle(limit: nat, text: seq<Byte>, n: nat)
    requires n <= |text|
    ensures FewOverhang(limit, n, After(text, n), |Overhang(limit, Found(text, n))|)
  {
    if n == 0 {
      return;
    }
    var scan, b := After(text, n - 1), text[n - 1];
    assert Found(text, n) == Found(text, n - 1) + Emit(scan, n - 1, b) && After(text, n) == Step(scan, n - 1, b);
    FoundOverhangsLittle(limit, text, n - 1);
    AfterIsSane(text, n - 1);
    EmitIsSmall(scan, n - 1, b);
    hide After, Found, Emit, Overhang, Step, FewOverhang, Sane;
    OverhangStep(limit, n - 1, scan, b, |Overhang(limit, Found(text, n - 1))|);
    OverhangAppend(limit, Found(text, n - 1), Emit(scan, n - 1, b));
  }

  lemma AllOverhangLittle(limit: nat, text: seq<Byte>)
    ensures |Overhang(limit, AllSpans(text))| <= 2
  {
    FoundOverhangsLittle(limit, text, |text|);
    AfterIsSane(text, |text|);
    var scan, found := After(text, |text|), Found(text, |text|);
    assert AllSpans(text) == found + Unfinished(scan, |text|);
    hide AllSpans, After, Found;
    OverhangAppend(limit, found, Unfinished(scan, |text|));
    hide Overhang;
  }

  /** A list with increasing ends, at most two of them past the limit, is short. */
  lemma FewOverhangsFit(limit: nat, kept: seq<Span>)
    requires 0 < limit && IncreasingEnds(kept) && |EndingAfter(kept, limit - 1)| <= 2
    requires forall s | s in kept :: 0 < s.end
    ensures |kept| <= limit + 1
  {
    DeadAreDropped(kept, limit - 1);
    var dead := kept[..Dead(kept, limit - 1)];
    assert |kept| == |dead| + |EndingAfter(kept, limit - 1)|;
    assert IncreasingEnds(dead);
    hide EndingAfter, IncreasingEnds, Dead;
    forall s | s in dead
      ensures 0 < s.end <= limit - 1
    {
      DeadEndEarly(kept, limit - 1, s);
    }
    IncreasingEndsFit(dead, 0, limit - 1);
  }

  /** The list kept for the first window is bounded too, for every stream. */
  lemma HeadListIsBounded(limit: nat, text: seq<Byte>)
    requires 0 < limit
    ensures |StartingBefore(AllSpans(text), limit)| <= limit + 1
  {
    AllOverhangLittle(limit, text);
    AllEndsIncrease(text);
    hide AllSpans;
    RetainedMembers(AllSpans(text), limit);
    StartingBeforeIncreases(AllSpans(text), limit);
    hide StartingBefore, EndingAfter, IncreasingEnds;
    FewOverhangsFit(limit, StartingBefore(AllSpans(text), limit));
  }

  lemma {:induction false} DeadEndEarly(live: seq<Span>, cutoff: int, s: Span)
    requires s in live[..Dead(live, cutoff)]
    ensures s in live && s.end <= cutoff
  {
    if live[0].end <= cutoff && s != live[0] {
      assert live[..Dead(live, cutoff)][1..] == live[1..][..Dead(live[1..], cutoff)];
      DeadEndEarly(live[1..], cutoff, s);
    }
  }

  lemma {:induction false} StartingBeforeIncreases(spans: seq<Span>, limit: int)
    requires IncreasingEnds(spans)
    ensures IncreasingEnds(StartingBefore(spans, limit))
  {
    if spans != [] {
      var n := |spans| - 1;
      StartingBeforeIncreases(spans[..n], limit);
      RetainedMembers(spans[..n], limit);
      forall s | s in StartingBefore(spans[..n], limit)
        ensures s.end < spans[n].end
      {
        var i :| 0 <= i < n && spans[i] == s;
      }
    }
  }
}
