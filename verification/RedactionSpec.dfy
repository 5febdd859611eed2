/**
 What the streaming scanner must find, as two small automata that run side by side over the whole stream
 (internal/service/aggregate.go:595-752).

 The query automaton looks for `?key=value` and `&key=value` with a sensitive key. The link automaton looks for
 `scheme://userinfo@`. They influence each other in two places only: an '@' that closes an authority restarts
 the query automaton, and no scheme is looked for while a query key or value is being read.
*/
module RedactionSpec {
  import opened Bytes
  import opened Spans

  datatype Query = Outside | Key(name: seq<Byte>) | Value(start: int)

  datatype Link = Idle | Scheme | SlashOne | SlashTwo | Authority(start: int)

  datatype Scan = Scan(link: Link, query: Query)

  const START := Scan(Idle, Outside)

  // ----- one byte

  function QueryStep(query: Query, position: int, b: Byte): Query {
    match query
    case Outside => if OpensKey(b) then Key([]) else Outside
    case Key(name) =>
      if b == EQUALS then (if IsSensitiveKey(name) then Value(position + 1) else Outside)
      else if OpensKey(b) then Key([])
      else if IsTerminator(b) || |name| >= KEY_CAP then Outside
      else Key(name + [Lower(b)])
    case Value(_) =>
      if b == AMPERSAND then Key([]) else if IsTerminator(b) then Outside else query
  }

  function LinkStep(scan: Scan, position: int, b: Byte): Link {
    match scan.link
    case Idle => if scan.query == Outside && IsAlpha(b) then Scheme else Idle
    case Scheme => if IsSchemeByte(b) then Scheme else if b == COLON then SlashOne else Idle
    case SlashOne => if b == SLASH then SlashTwo else if IsAlpha(b) then Scheme else Idle
    case SlashTwo => if b == SLASH then Authority(position + 1) else if IsAlpha(b) then Scheme else Idle
    case Authority(_) => if b == AT || b == SLASH || IsSpace(b) then Idle else scan.link
  }

  /** This byte is the '@' that ends the userinfo of an authority. */
  predicate ClosesAuthority(scan: Scan, b: Byte) {
    scan.link.Authority? && b == AT
  }

  function Step(scan: Scan, position: int, b: Byte): Scan {
    Scan(LinkStep(scan, position, b),
         if ClosesAuthority(scan, b) then Outside else QueryStep(scan.query, position, b))
  }

  /** The span this byte completes, if any. */
  function Emit(scan: Scan, position: int, b: Byte): seq<Span> {
    if scan.query.Value? && EndsValue(b) then [Span(scan.query.start, position)]
    else if ClosesAuthority(scan, b) && position > scan.link.start then [Span(scan.link.start, position)]
    else []
  }

  // ----- whole streams

  /** The state of both automata after the first n bytes of a text. */
  function After(text: seq<Byte>, n: nat): Scan
    requires n <= |text|
  {
    if n == 0 then START else Step(After(text, n - 1), n - 1, text[n - 1])
  }

  /** The spans completed by the first n bytes, in the order they were discovered. */
  function Found(text: seq<Byte>, n: nat): seq<Span>
    requires n <= |text|
  {
    if n == 0 then [] else Found(text, n - 1) + Emit(After(text, n - 1), n - 1, text[n - 1])
  }

  /** A sensitive value still open when the stream ends reaches to its end. */
  function Unfinished(scan: Scan, position: int): seq<Span> {
    if scan.query.Value? then [Span(scan.query.start, position)] else []
  }

  /** Every span of a finished stream. */
  function AllSpans(text: seq<Byte>): seq<Span> {
    Found(text, |text|) + Unfinished(After(text, |text|), |text|)
  }

  /** The automata see no further than the bytes they have read. */
  lemma {:induction false} OnlyThePrefixMatters(left: seq<Byte>, right: seq<Byte>, n: nat)
    requires n <= |left| && n <= |right| && left[..n] == right[..n]
    ensures After(left, n) == After(right, n) && Found(left, n) == Found(right, n)
  {
    if n != 0 {
      assert left[..n - 1] == left[..n][..n - 1] == right[..n - 1];
      assert left[n - 1] == left[..n][n - 1] == right[n - 1];
      OnlyThePrefixMatters(left, right, n - 1);
    }
  }

  // ----- what both automata keep

  /** A pending start lies in the past, and inside an authority a pending value starts after the authority does. */
  predicate Sane(scan: Scan, position: int) {
    && (scan.query.Value? ==> 0 < scan.query.start <= position)
    && (scan.query.Key? ==> |scan.query.name| <= KEY_CAP)
    && (scan.link.Authority? ==> 0 < scan.link.start <= position)
    && (scan.link.Authority? && scan.query.Value? ==> scan.link.start < scan.query.start)
    && (scan.link.Scheme? || scan.link.SlashOne? || scan.link.SlashTwo? ==> scan.query == Outside)
  }

  lemma StepKeepsSane(scan: Scan, position: nat, b: Byte)
    requires Sane(scan, position)
    ensures Sane(Step(scan, position, b), position + 1)
  {
    hide IsSensitiveKey;
  }

  lemma {:induction false} AfterIsSane(text: seq<Byte>, n: nat)
    requires n <= |text|
    ensures Sane(After(text, n), n)
  {
    if n != 0 {
      AfterIsSane(text, n - 1);
      StepKeepsSane(After(text, n - 1), n - 1, text[n - 1]);
    }
  }

  /** A byte completes at most one span, which ends right there. */
  lemma EmitIsSmall(scan: Scan, position: nat, b: Byte)
    requires Sane(scan, position)
    ensures |Emit(scan, position, b)| <= 1
    ensures forall s | s in Emit(scan, position, b) :: 0 < s.start <= s.end == position
  {
  }

  /** Each span ends at the byte that completes it, so discovery order is the order of the ends. */
  lemma {:induction false} FoundEndsIncrease(text: seq<Byte>, n: nat)
    requires n <= |text|
    ensures WellFormed(Found(text, n)) && IncreasingEnds(Found(text, n)) && EndsAtMost(Found(text, n), n - 1)
  {
    if n != 0 {
      FoundEndsIncrease(text, n - 1);
      AfterIsSane(text, n - 1);
      EmitIsSmall(After(text, n - 1), n - 1, text[n - 1]);
      assert Found(text, n) == Found(text, n - 1) + Emit(After(text, n - 1), n - 1, text[n - 1]);
      hide After, Emit, Sane, Found;
      OneMoreEnd(Found(text, n - 1), Emit(After(text, n - 1), n - 1, text[n - 1]), n - 1);
    }
  }

  lemma OneMoreEnd(spans: seq<Span>, more: seq<Span>, position: nat)
    requires WellFormed(spans) && IncreasingEnds(spans) && EndsAtMost(spans, position - 1)
    requires |more| <= 1 && forall s | s in more :: 0 < s.start <= s.end == position
    ensures WellFormed(spans + more) && IncreasingEnds(spans + more) && EndsAtMost(spans + more, position)
  {
    if |more| == 1 {
      assert more[0] in more;
    }
  }

  lemma AllEndsIncrease(text: seq<Byte>)
    ensures WellFormed(AllSpans(text)) && IncreasingEnds(AllSpans(text)) && EndsAtMost(AllSpans(text), |text|)
  {
    FoundEndsIncrease(text, |text|);
    AfterIsSane(text, |text|);
    hide After, Found;
  }

  /** No span reaches back to the very first byte: something opens it. */
  lemma {:induction false} FoundStartsLater(text: seq<Byte>, n: nat)
    requires n <= |text|
    ensures forall s | s in Found(text, n) :: 0 < s.start
  {
    if n != 0 {
      FoundStartsLater(text, n - 1);
      AfterIsSane(text, n - 1);
      hide After;
    }
  }

  lemma AllStartsLater(text: seq<Byte>)
    ensures forall s | s in AllSpans(text) :: 0 < s.start
  {
    FoundStartsLater(text, |text|);
    AfterIsSane(text, |text|);
    hide After, Found;
  }

  /** Spans once found stay found. */
  lemma {:induction false} FoundGrows(text: seq<Byte>, m: nat, n: nat)
    requires m <= n <= |text|
    ensures Found(text, m) <= Found(text, n)
  {
    if m < n {
      FoundGrows(text, m, n - 1);
      var earlier, emitted := Found(text, n - 1), Emit(After(text, n - 1), n - 1, text[n - 1]);
      assert Found(text, n) == earlier + emitted;
      hide *;
    }
  }

  lemma PrefixMembers(prefix: seq<Span>, spans: seq<Span>)
    requires prefix <= spans
    ensures forall s | s in prefix :: s in spans
  {
    assert spans == prefix + spans[|prefix|..];
  }

  /** What a byte completes is among the spans of the stream. */
  lemma EmitIsRecorded(text: seq<Byte>, i: nat)
    requires i < |text|
    ensures forall s | s in Emit(After(text, i), i, text[i]) :: s in AllSpans(text)
  {
    assert Found(text, i + 1) == Found(text, i) + Emit(After(text, i), i, text[i]);
    assert Found(text, |text|) <= AllSpans(text);
    hide *;
    FoundGrows(text, i + 1, |text|);
    PrefixMembers(Found(text, i + 1), Found(text, |text|));
    PrefixMembers(Found(text, |text|), AllSpans(text));
  }
}
