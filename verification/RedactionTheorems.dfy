/**
 Exactly which stretches of a stream the scanner records, stated on the text alone where possible
 (internal/service/aggregate.go:587-764).
*/
module RedactionTheorems {
  import opened Bytes
  import opened Spans
  import opened RedactionSpec

  // ----- shapes in the text

  /** text[p] opens a sensitive key whose value begins at s. */
  predicate KeyAt(text: seq<Byte>, p: int, s: int) {
    && 0 <= p && p + 2 <= s <= |text|
    && OpensKey(text[p])
    && text[s - 1] == EQUALS
    && IsSensitiveKey(LowerAll(text[p + 1..s - 1]))
  }

  predicate FreeOfEnds(text: seq<Byte>, s: int, e: int) {
    0 <= s <= e <= |text| && forall i | s <= i < e :: !EndsValue(text[i])
  }

  /** text[s..e] is the whole value of the sensitive key opened at p. */
  predicate SensitiveValue(text: seq<Byte>, p: int, s: int, e: int) {
    KeyAt(text, p, s) && FreeOfEnds(text, s, e) && (e < |text| ==> EndsValue(text[e]))
  }

  /** text[p..n] is a query key so far: an opener, and at most 64 bytes none of which ends the key or opens another. */
  predicate KeyRun(text: seq<Byte>, p: int, n: int) {
    && 0 <= p < n <= |text| && n - p - 1 <= 64 && OpensKey(text[p])
    && forall i | p < i < n :: text[i] != EQUALS && !OpensKey(text[i]) && !IsTerminator(text[i])
  }

  /** text[k..e] is a URL scheme: a letter, then scheme bytes. */
  predicate SchemeFrom(text: seq<Byte>, k: int, e: int) {
    0 <= k < e <= |text| && IsAlpha(text[k]) && forall i | k <= i < e :: IsSchemeByte(text[i])
  }

  /** A scheme begins at k, and its authority at s. */
  predicate AuthorityFrom(text: seq<Byte>, k: int, s: int) {
    && 3 <= s <= |text|
    && SchemeFrom(text, k, s - 3)
    && text[s - 3] == COLON && text[s - 2] == SLASH && text[s - 1] == SLASH
  }

  predicate UserinfoBytes(text: seq<Byte>, s: int, e: int) {
    0 <= s <= e <= |text| && forall i | s <= i < e :: text[i] != AT && text[i] != SLASH && !IsSpace(text[i])
  }

  /** text[s..e] is the non-empty userinfo of a URL whose scheme begins at k. */
  predicate Userinfo(text: seq<Byte>, k: int, s: int, e: int) {
    AuthorityFrom(text, k, s) && s < e < |text| && UserinfoBytes(text, s, e) && text[e] == AT
  }

  // ----- what the automata were doing at an offset

  /** The byte at y is an '@' that closes an authority. */
  predicate ClosesAt(text: seq<Byte>, y: int) {
    0 <= y < |text| && ClosesAuthority(After(text, y), text[y])
  }

  /** The key opened at p is really read as a key: p is not inside another sensitive value. */
  predicate KeyOpensAt(text: seq<Byte>, p: int) {
    0 <= p < |text| && OpensKey(text[p]) && !(After(text, p).query.Value? && text[p] == QUESTION)
  }

  /** A scheme may begin at k: no key, value or authority is being read there. */
  predicate SchemeOpensAt(text: seq<Byte>, k: int) {
    0 <= k < |text| && After(text, k).query == Outside && !After(text, k).link.Authority?
  }

  predicate NoCloseIn(text: seq<Byte>, s: int, e: int) {
    forall y | s <= y < e :: !ClosesAt(text, y)
  }

  ghost predicate IsValueSpan(text: seq<Byte>, s: int, e: int) {
    exists p :: SensitiveValue(text, p, s, e) && KeyOpensAt(text, p) && NoCloseIn(text, s, e)
  }

  ghost predicate IsUserinfoSpan(text: seq<Byte>, s: int, e: int) {
    exists k :: Userinfo(text, k, s, e) && SchemeOpensAt(text, k)
  }

  // ----- reading forwards: the shapes are found

  /** Inside a run without ends and closes, an open value stays open. */
  lemma {:induction false} ValueStaysOpen(text: seq<Byte>, s: int, v: int, i: int)
    requires FreeOfEnds(text, s, i) && NoCloseIn(text, s, i)
    requires After(text, s).query == Value(v)
    ensures After(text, i).query == Value(v)
    decreases i
  {
    if s < i {
      ValueStaysOpen(text, s, v, i - 1);
      assert !ClosesAt(text, i - 1);
      hide IsSensitiveKey, LinkStep;
    }
  }

  /** One byte of a sensitive key extends the key being read, and leaves an open value alone. */
  lemma KeyByteIsRead(text: seq<Byte>, p: int, s: int, i: int, scan: Scan)
    requires KeyAt(text, p, s) && p + 1 <= i < s - 1
    ensures scan.query == Key(LowerAll(text[p + 1..i])) ==>
      Step(scan, i, text[i]).query == Key(LowerAll(text[p + 1..i + 1]))
    ensures scan.query.Value? ==> Step(scan, i, text[i]).query == scan.query
  {
    var name := LowerAll(text[p + 1..s - 1]);
    SensitiveKeyShape(name);
    hide IsSensitiveKey, LinkStep;
    assert IsKeyByte(name[i - (p + 1)]) && name[i - (p + 1)] == Lower(text[i]);
    assert LowerAll(text[p + 1..i + 1]) == LowerAll(text[p + 1..i]) + [Lower(text[i])];
  }

  /** Reading a sensitive key leads into its value, or happens inside a value that began earlier. */
  lemma {:induction false} KeyIsRead(text: seq<Byte>, p: int, s: int, i: int)
    requires KeyAt(text, p, s) && p + 1 <= i <= s - 1
    ensures KeyOpensAt(text, p) ==> After(text, i).query == Key(LowerAll(text[p + 1..i]))
    ensures !KeyOpensAt(text, p) ==> After(text, i).query == After(text, p).query && After(text, p).query.Value?
    decreases i
  {
    hide IsSensitiveKey, LinkStep;
    if i == p + 1 {
      assert LowerAll(text[p + 1..i]) == [];
    } else {
      KeyIsRead(text, p, s, i - 1);
      KeyByteIsRead(text, p, s, i - 1, After(text, i - 1));
      hide KeyAt, KeyOpensAt, LowerAll, Step;
    }
  }

  lemma ValueOpens(text: seq<Byte>, p: int, s: int)
    requires KeyAt(text, p, s)
    ensures After(text, s).query.Value? && After(text, s).query.start <= s
    ensures KeyOpensAt(text, p) ==> After(text, s).query.start == s
  {
    hide IsSensitiveKey, LinkStep, LowerAll;
    KeyIsRead(text, p, s, s - 1);
    AfterIsSane(text, s);
  }

  /** The span that is completed when an open value ends. */
  lemma ValueIsRecorded(text: seq<Byte>, s: int, e: int, v: int)
    requires FreeOfEnds(text, s, e) && NoCloseIn(text, s, e) && (e < |text| ==> EndsValue(text[e]))
    requires After(text, s).query == Value(v)
    ensures Span(v, e) in AllSpans(text)
  {
    ValueStaysOpen(text, s, v, e);
    hide After, Found, NoCloseIn, EndsValue;
    if e < |text| {
      EmitIsRecorded(text, e);
      assert Span(v, e) in Emit(After(text, e), e, text[e]);
    }
  }

  lemma {:induction false} SchemeIsRead(text: seq<Byte>, k: int, i: int)
    requires SchemeFrom(text, k, i) && SchemeOpensAt(text, k)
    ensures After(text, i) == Scan(Scheme, Outside)
    decreases i
  {
    hide IsSensitiveKey;
    if i > k + 1 {
      SchemeIsRead(text, k, i - 1);
    } else {
      AfterIsSane(text, k);
    }
  }

  lemma AuthorityOpens(text: seq<Byte>, k: int, s: int)
    requires AuthorityFrom(text, k, s) && SchemeOpensAt(text, k)
    ensures After(text, s).link == Authority(s)
  {
    SchemeIsRead(text, k, s - 3);
    assert After(text, s - 2) == Step(Scan(Scheme, Outside), s - 3, COLON) == Scan(SlashOne, Outside);
    assert After(text, s - 1) == Step(Scan(SlashOne, Outside), s - 2, SLASH) == Scan(SlashTwo, Outside);
  }

  lemma {:induction false} AuthorityStaysOpen(text: seq<Byte>, s: int, i: int)
    requires UserinfoBytes(text, s, i) && After(text, s).link == Authority(s)
    ensures After(text, i).link == Authority(s)
    decreases i
  {
    if s < i {
      AuthorityStaysOpen(text, s, i - 1);
      hide QueryStep;
    }
  }

  lemma UserinfoIsRecorded(text: seq<Byte>, k: int, s: int, e: int)
    requires Userinfo(text, k, s, e) && SchemeOpensAt(text, k)
    ensures Span(s, e) in AllSpans(text)
  {
    AuthorityOpens(text, k, s);
    AuthorityStaysOpen(text, s, e);
    EmitIsRecorded(text, e);
    hide After, Found, SchemeOpensAt, AuthorityFrom;
    assert !EndsValue(AT);
    assert Span(s, e) in Emit(After(text, e), e, text[e]);
  }

  // ----- reading backwards: every pending or recorded span has a shape

  /** What a state of the query automaton at offset n says about the bytes before n. */
  predicate QueryRemembers(text: seq<Byte>, n: nat, p: int, query: Query)
    requires n <= |text|
  {
    match query
    case Outside => true
    case Key(name) => KeyOpensAt(text, p) && p < n && name == LowerAll(text[p + 1..n])
    case Value(v) => KeyOpensAt(text, p) && KeyAt(text, p, v) && FreeOfEnds(text, v, n) && NoCloseIn(text, v, n)
  }

  lemma {:induction false} KeyGoesOn(text: seq<Byte>, n: nat, p: int, name: seq<Byte>)
    requires n < |text| && QueryRemembers(text, n, p, Key(name)) && After(text, n).query == Key(name)
    ensures QueryRemembers(text, n + 1, if OpensKey(text[n]) then n else p, QueryStep(Key(name), n, text[n]))
  {
    hide IsSensitiveKey, After;
    assert LowerAll(text[n + 1..n + 1]) == [];
    assert LowerAll(text[p + 1..n + 1]) == LowerAll(text[p + 1..n]) + [Lower(text[n])];
  }

  lemma ValueGoesOn(text: seq<Byte>, n: nat, p: int, v: int)
    requires n < |text| && QueryRemembers(text, n, p, Value(v)) && After(text, n).query == Value(v)
    requires !ClosesAt(text, n)
    ensures QueryRemembers(text, n + 1, if text[n] == AMPERSAND then n else p, QueryStep(Value(v), n, text[n]))
  {
    hide IsSensitiveKey, After;
    assert LowerAll(text[n + 1..n + 1]) == [];
  }

  /** The query automaton's memory always points at a real key, or a real value, in the text. */
  lemma {:induction false} QueryMemory(text: seq<Byte>, n: nat) returns (p: int)
    requires n <= |text|
    ensures QueryRemembers(text, n, p, After(text, n).query)
  {
    p := -1;
    if n == 0 {
      return;
    }
    p := QueryMemory(text, n - 1);
    var q := After(text, n - 1).query;
    assert LowerAll(text[n..n]) == [];
    if ClosesAt(text, n - 1) {
    } else if q.Key? {
      KeyGoesOn(text, n - 1, p, q.name);
      p := if OpensKey(text[n - 1]) then n - 1 else p;
    } else if q.Value? {
      ValueGoesOn(text, n - 1, p, q.start);
      p := if text[n - 1] == AMPERSAND then n - 1 else p;
    } else if OpensKey(text[n - 1]) {
      p := n - 1;
    }
    hide QueryRemembers;
  }

  /** What a state of the link automaton at offset n says about the bytes before n. */
  predicate LinkRemembers(text: seq<Byte>, n: nat, k: int, link: Link)
    requires n <= |text|
  {
    && (link != Idle ==> SchemeOpensAt(text, k))
    && match link
       case Idle => true
       case Scheme => SchemeFrom(text, k, n)
       case SlashOne => SchemeFrom(text, k, n - 1) && text[n - 1] == COLON
       case SlashTwo => SchemeFrom(text, k, n - 2) && text[n - 2] == COLON && text[n - 1] == SLASH
       case Authority(s) => AuthorityFrom(text, k, s) && UserinfoBytes(text, s, n)
  }

  /** The link automaton's memory always points at a real scheme. */
  lemma {:induction false} LinkMemory(text: seq<Byte>, n: nat) returns (k: int)
    requires n <= |text|
    ensures LinkRemembers(text, n, k, After(text, n).link)
  {
    k := -1;
    if n == 0 {
      return;
    }
    k := LinkMemory(text, n - 1);
    AfterIsSane(text, n - 1);
    k := LinkGoesOn(text, n - 1, k);
    hide LinkRemembers;
  }

  lemma LinkGoesOn(text: seq<Byte>, n: nat, k: int) returns (k': int)
    requires n < |text| && LinkRemembers(text, n, k, After(text, n).link) && Sane(After(text, n), n)
    ensures LinkRemembers(text, n + 1, k', LinkStep(After(text, n), n, text[n]))
  {
    hide IsSensitiveKey;
    var scan := After(text, n);
    hide After;
    k' := if scan.link.Scheme? && IsSchemeByte(text[n]) then k
          else if LinkStep(scan, n, text[n]).Scheme? then n else k;
  }

  /** Every span completed inside the text is a sensitive value or a userinfo. */
  lemma {:induction false} FoundIsSound(text: seq<Byte>, n: nat, s: Span)
    requires n <= |text| && s in Found(text, n)
    ensures IsValueSpan(text, s.start, s.end) || IsUserinfoSpan(text, s.start, s.end)
  {
    if s in Found(text, n - 1) {
      FoundIsSound(text, n - 1, s);
    } else {
      EmitIsSound(text, n - 1, s);
    }
  }

  lemma EmitIsSound(text: seq<Byte>, n: nat, s: Span)
    requires n < |text| && s in Emit(After(text, n), n, text[n])
    ensures IsValueSpan(text, s.start, s.end) || IsUserinfoSpan(text, s.start, s.end)
  {
    var p := QueryMemory(text, n);
    var k := LinkMemory(text, n);
    var scan := After(text, n);
    hide After, SchemeOpensAt, KeyOpensAt, NoCloseIn, AuthorityFrom, KeyAt;
    if scan.query.Value? && EndsValue(text[n]) {
      assert SensitiveValue(text, p, s.start, s.end);
    } else {
      assert Userinfo(text, k, s.start, s.end);
    }
  }

  // ----- what is being read, told from the text

  /** The key that is being read, and where it was opened. */
  lemma {:induction false} KeyMemory(text: seq<Byte>, n: nat) returns (p: int)
    requires n <= |text| && After(text, n).query.Key?
    ensures KeyOpensAt(text, p) && KeyRun(text, p, n) && NoCloseIn(text, p, n)
    ensures |After(text, n).query.name| == n - p - 1
  {
    var scan, b := After(text, n - 1), text[n - 1];
    AfterIsSane(text, n);
    if OpensKey(b) {
      p := n - 1;
      hide After, IsSensitiveKey;
    } else {
      p := KeyMemory(text, n - 1);
      hide IsSensitiveKey, LinkStep;
    }
  }

  lemma {:induction false} KeyStaysOpen(text: seq<Byte>, p: int, n: nat)
    requires KeyOpensAt(text, p) && KeyRun(text, p, n) && NoCloseIn(text, p, n)
    ensures After(text, n).query.Key? && |After(text, n).query.name| == n - p - 1
  {
    assert !ClosesAt(text, n - 1);
    if p + 1 < n {
      KeyStaysOpen(text, p, n - 1);
    }
    hide IsSensitiveKey, LinkStep;
  }

  /**
   A key is being read exactly behind a '?' or '&' that opens one, within 64 bytes, before '=', another opener, '#',
   a quote, white space, or a closing '@'.
  */
  lemma KeyIsReadIff(text: seq<Byte>, n: nat)
    requires n <= |text|
    ensures After(text, n).query.Key? <==>
            exists p :: KeyOpensAt(text, p) && KeyRun(text, p, n) && NoCloseIn(text, p, n)
  {
    if After(text, n).query.Key? {
      var p := KeyMemory(text, n);
    }
    hide After, KeyOpensAt, NoCloseIn, KeyRun;
    if p :| KeyOpensAt(text, p) && KeyRun(text, p, n) && NoCloseIn(text, p, n) {
      KeyStaysOpen(text, p, n);
    }
  }

  /** A value is being read exactly behind a sensitive key that was read as one, before any end and any closing '@'. */
  lemma ValueIsReadIff(text: seq<Byte>, v: int, n: nat)
    requires n <= |text|
    ensures After(text, n).query == Value(v) <==>
            exists p :: KeyOpensAt(text, p) && KeyAt(text, p, v) && FreeOfEnds(text, v, n) && NoCloseIn(text, v, n)
  {
    if After(text, n).query == Value(v) {
      var p := QueryMemory(text, n);
      hide After;
      assert KeyOpensAt(text, p) && KeyAt(text, p, v) && FreeOfEnds(text, v, n) && NoCloseIn(text, v, n);
    }
    hide After, KeyAt, KeyOpensAt, NoCloseIn;
    if p :| KeyOpensAt(text, p) && KeyAt(text, p, v) && FreeOfEnds(text, v, n) && NoCloseIn(text, v, n) {
      ValueOpens(text, p, v);
      ValueStaysOpen(text, v, v, n);
    }
  }

  /** An authority is being read exactly behind a scheme that was looked for, before any byte that ends it. */
  lemma AuthorityIsReadIff(text: seq<Byte>, s: int, n: nat)
    requires n <= |text|
    ensures After(text, n).link == Authority(s) <==>
            exists k :: SchemeOpensAt(text, k) && AuthorityFrom(text, k, s) && UserinfoBytes(text, s, n)
  {
    if After(text, n).link == Authority(s) {
      var k := LinkMemory(text, n);
      hide After;
      assert SchemeOpensAt(text, k) && AuthorityFrom(text, k, s) && UserinfoBytes(text, s, n);
    }
    hide After, SchemeOpensAt, AuthorityFrom;
    if k :| SchemeOpensAt(text, k) && AuthorityFrom(text, k, s) && UserinfoBytes(text, s, n) {
      AuthorityOpens(text, k, s);
      AuthorityStaysOpen(text, s, n);
    }
  }

  /** An '@' closes an authority exactly when it ends the userinfo, maybe empty, of a URL whose scheme is looked for. */
  lemma ClosesIff(text: seq<Byte>, y: int)
    ensures ClosesAt(text, y) <==>
            && 0 <= y < |text| && text[y] == AT
            && exists k, s :: SchemeOpensAt(text, k) && AuthorityFrom(text, k, s) && UserinfoBytes(text, s, y)
  {
    if 0 <= y < |text| {
      hide After, SchemeOpensAt, AuthorityFrom, UserinfoBytes;
      if After(text, y).link.Authority? {
        AuthorityIsReadIff(text, After(text, y).link.start, y);
      }
      if k, s :| SchemeOpensAt(text, k) && AuthorityFrom(text, k, s) && UserinfoBytes(text, s, y) {
        AuthorityIsReadIff(text, s, y);
      }
    }
  }

  // ----- main theorems

  /**
   The recorded spans are exactly these: the whole values of sensitive keys that are read as keys and are not
   cut by a closing '@', and the non-empty userinfos of URLs whose scheme is looked for.
  */
  lemma SpansCharacterised(text: seq<Byte>, s: int, e: int)
    ensures Span(s, e) in AllSpans(text) <==> IsValueSpan(text, s, e) || IsUserinfoSpan(text, s, e)
  {
    if Span(s, e) in Found(text, |text|) {
      FoundIsSound(text, |text|, Span(s, e));
    } else if Span(s, e) in AllSpans(text) {
      var p := QueryMemory(text, |text|);
      assert SensitiveValue(text, p, s, e);
    }
    hide After, Found;
    if IsValueSpan(text, s, e) {
      var p :| SensitiveValue(text, p, s, e) && KeyOpensAt(text, p) && NoCloseIn(text, s, e);
      ValueOpens(text, p, s);
      ValueIsRecorded(text, s, e, s);
    }
    if IsUserinfoSpan(text, s, e) {
      var k :| Userinfo(text, k, s, e) && SchemeOpensAt(text, k);
      UserinfoIsRecorded(text, k, s, e);
    }
  }

  /** Nothing pending reaches back to y. */
  predicate Forgot(scan: Scan, y: int) {
    (scan.query.Value? ==> y < scan.query.start) && (scan.link.Authority? ==> y < scan.link.start)
  }

  lemma StepKeepsForgetting(scan: Scan, y: int, n: nat, b: Byte)
    requires y < n && Forgot(scan, y)
    ensures Forgot(Step(scan, n, b), y) && !Covers(Emit(scan, n, b), y)
  {
    hide IsSensitiveKey;
  }

  lemma {:induction false} FirstClose(text: seq<Byte>, from: int, e: int) returns (y: int)
    requires 0 <= from <= e <= |text|
    ensures from <= y <= e && NoCloseIn(text, from, y) && (y < e ==> ClosesAt(text, y))
    decreases e - from
  {
    hide After;
    if from == e || ClosesAt(text, from) {
      return from;
    }
    y := FirstClose(text, from + 1, e);
  }

  /** What nothing pending reaches back to stays uncovered for ever. */
  lemma {:induction false} ForgottenIsUncovered(text: seq<Byte>, y: nat, n: nat)
    requires y < n <= |text| && Forgot(After(text, y + 1), y)
    ensures Forgot(After(text, n), y) && !Covers(Found(text, n), y)
  {
    if n == y + 1 {
      FoundEndsIncrease(text, n);
      hide After, Found;
    } else {
      ForgottenIsUncovered(text, y, n - 1);
      StepKeepsForgetting(After(text, n - 1), y, n - 1, text[n - 1]);
      hide Step, Emit;
    }
  }

  lemma ForgottenIsNotCovered(text: seq<Byte>, y: nat)
    requires y < |text| && Forgot(After(text, y + 1), y)
    ensures !Covers(AllSpans(text), y)
  {
    ForgottenIsUncovered(text, y, |text|);
    hide After, Found;
  }

  /** After a closing '@' both automata start afresh, so that byte itself is never covered. */
  lemma CloseIsNeverCovered(text: seq<Byte>, y: int)
    requires ClosesAt(text, y)
    ensures !Covers(AllSpans(text), y)
  {
    assert After(text, y + 1) == Step(After(text, y), y, text[y]);
    hide After, QueryStep;
    ForgottenIsNotCovered(text, y);
  }

  /** When an open value is cut by a closing '@', the userinfo recorded there begins before the value. */
  lemma CutValueIsUserinfo(text: seq<Byte>, s: int, y: int, v: int)
    requires 0 <= s <= y < |text| && v <= s && ClosesAt(text, y)
    requires After(text, y).query == Value(v)
    ensures exists a :: a < s && Span(a, y) in AllSpans(text)
  {
    AfterIsSane(text, y);
    EmitIsRecorded(text, y);
    hide After, Found;
    var a := After(text, y).link.start;
    assert !EndsValue(AT);
    assert Span(a, y) in Emit(After(text, y), y, text[y]);
  }

  /** The bytes of a sensitive value that come before any closing '@' inside it are covered. */
  lemma ValueCoveredUpTo(text: seq<Byte>, p: int, s: int, e: int, x: int)
    requires SensitiveValue(text, p, s, e) && s <= x < e
    requires NoCloseIn(text, s, x + 1)
    ensures Covers(AllSpans(text), x)
  {
    ValueOpens(text, p, s);
    var v := After(text, s).query.start;
    var y := FirstClose(text, x + 1, e);
    hide After, Found, KeyAt;
    if y == e {
      ValueIsRecorded(text, s, e, v);
      assert Span(v, e) in AllSpans(text);
    } else {
      ValueStaysOpen(text, s, v, y);
      CutValueIsUserinfo(text, s, y, v);
      var a :| a < s && Span(a, y) in AllSpans(text);
    }
  }

  /**
   Coverage of sensitive values, exactly: every byte of the value is covered if and only if no '@' inside it
   closes an authority.
  */
  lemma ValueCoveredIff(text: seq<Byte>, p: int, s: int, e: int)
    requires SensitiveValue(text, p, s, e)
    ensures (forall x | s <= x < e :: Covers(AllSpans(text), x)) <==> NoCloseIn(text, s, e)
  {
    if NoCloseIn(text, s, e) {
      forall x | s <= x < e
        ensures Covers(AllSpans(text), x)
      {
        ValueCoveredUpTo(text, p, s, e, x);
      }
    } else {
      var y :| s <= y < e && ClosesAt(text, y);
      CloseIsNeverCovered(text, y);
    }
  }

  /** The condition is needed: in a://?auth=b@c the '@' is taken for the end of a userinfo, and c stays visible. */
  lemma SomeValueIsCut() returns (text: seq<Byte>, p: int, s: int, e: int)
    ensures SensitiveValue(text, p, s, e) && !NoCloseIn(text, s, e)
    ensures exists x :: s <= x < e && !Covers(AllSpans(text), x)
  {
    text := [97, COLON, SLASH, SLASH, QUESTION, 97, 117, 116, 104, EQUALS, 98, AT, 99];
    p, s, e := 4, 10, 13;
    assert LowerAll(text[5..9]) == [97, 117, 116, 104] && IsSensitiveKey([97, 117, 116, 104]);
    assert AuthorityFrom(text, 0, 4) && UserinfoBytes(text, 4, 11);
    hide IsSensitiveKey, LowerAll;
    AuthorityOpens(text, 0, 4);
    AuthorityStaysOpen(text, 4, 11);
    hide After, Found;
    assert ClosesAt(text, 11);
    ValueCoveredIff(text, p, s, e);
  }

  // ----- userinfos

  /** The link state just behind "://" is the authority that begins there, or none. */
  lemma BehindTheSlashes(text: seq<Byte>, k: int, s: int)
    requires AuthorityFrom(text, k, s)
    ensures After(text, s).link == Authority(s) || After(text, s).link == Idle
  {
    assert After(text, s) == Step(After(text, s - 1), s - 1, SLASH);
    assert After(text, s - 1) == Step(After(text, s - 2), s - 2, SLASH);
    hide After, QueryStep;
  }

  /** No link state that a run of userinfo bytes leads into is an authority. */
  predicate NoAuthority(link: Link) {
    link.Idle? || link.Scheme? || link.SlashOne?
  }

  /** Without a slash no authority opens. */
  lemma {:induction false} NoAuthorityOpens(text: seq<Byte>, s: int, i: int)
    requires UserinfoBytes(text, s, i) && After(text, s).link == Idle
    ensures NoAuthority(After(text, i).link)
    decreases i
  {
    if s < i {
      NoAuthorityOpens(text, s, i - 1);
      hide QueryStep;
    }
  }

  /** Where no authority and no earlier value is pending, a byte stays uncovered. */
  lemma NothingPending(text: seq<Byte>, y: nat)
    requires y < |text| && NoAuthority(After(text, y).link)
    requires text[y] != SLASH && !(After(text, y).query.Value? && !EndsValue(text[y]))
    ensures !Covers(AllSpans(text), y)
  {
    assert After(text, y + 1) == Step(After(text, y), y, text[y]);
    hide After, IsSensitiveKey;
    ForgottenIsNotCovered(text, y);
  }

  /** A value that stays open is covered up to where it has come. */
  lemma OpenValueIsCovered(text: seq<Byte>, s: int, e: int, x: int)
    requires 0 <= s <= x < e <= |text| && After(text, s).query.Value? && FreeOfEnds(text, s, e) && NoCloseIn(text, s, e)
    ensures Covers(AllSpans(text), x)
  {
    var p := QueryMemory(text, s);
    var v := After(text, s).query.start;
    AfterIsSane(text, s);
    var end := ValueEnd(text, e);
    hide After, KeyOpensAt, IsSensitiveKey;
    assert SensitiveValue(text, p, v, end);
    ValueCoveredUpTo(text, p, v, end, x);
  }

  /** Where a run of bytes that do not end a value ends. */
  lemma {:induction false} ValueEnd(text: seq<Byte>, from: int) returns (end: int)
    requires 0 <= from <= |text|
    ensures from <= end <= |text| && FreeOfEnds(text, from, end) && (end < |text| ==> EndsValue(text[end]))
    decreases |text| - from
  {
    end := from;
    if from < |text| && !EndsValue(text[from]) {
      end := ValueEnd(text, from + 1);
    }
  }

  /** The first byte in a stretch that ends a value. */
  lemma FirstEnd(text: seq<Byte>, from: int, e: int) returns (y: int)
    requires 0 <= from <= e <= |text|
    ensures from <= y <= e && FreeOfEnds(text, from, y) && (y < e ==> EndsValue(text[y]))
  {
    y := ValueEnd(text, from);
    y := if y < e then y else e;
  }

  /** When the program hides a userinfo: its authority is being read, or it lies inside a sensitive value. */
  predicate UserinfoIsRead(text: seq<Byte>, s: int, e: int)
    requires 0 <= s <= |text|
  {
    After(text, s).link == Authority(s) || (After(text, s).query.Value? && FreeOfEnds(text, s, e))
  }

  /**
   Coverage of userinfos, exactly: every byte of the userinfo is covered if and only if its authority is being read
   where it begins, or a sensitive value is being read there and goes on to its end.
  */
  lemma UserinfoCoveredIff(text: seq<Byte>, k: int, s: int, e: int)
    requires Userinfo(text, k, s, e)
    ensures (forall x | s <= x < e :: Covers(AllSpans(text), x)) <==> UserinfoIsRead(text, s, e)
  {
    BehindTheSlashes(text, k, s);
    hide After, AuthorityFrom, Covers;
    if After(text, s).link == Authority(s) {
      ReadUserinfoIsCovered(text, s, e);
    } else {
      MissedUserinfo(text, s, e);
    }
  }

  lemma ReadUserinfoIsCovered(text: seq<Byte>, s: int, e: int)
    requires 0 <= s < e < |text| && UserinfoBytes(text, s, e) && text[e] == AT && After(text, s).link == Authority(s)
    ensures forall x | s <= x < e :: Covers(AllSpans(text), x)
  {
    AuthorityStaysOpen(text, s, e);
    EmitIsRecorded(text, e);
    hide After, Found, AllSpans;
    assert !EndsValue(AT);
    assert Span(s, e) in Emit(After(text, e), e, text[e]);
    assert Span(s, e) in AllSpans(text);
  }

  lemma MissedUserinfo(text: seq<Byte>, s: int, e: int)
    requires 0 <= s < e < |text| && UserinfoBytes(text, s, e) && text[e] == AT && After(text, s).link == Idle
    ensures (forall x | s <= x < e :: Covers(AllSpans(text), x)) <==>
            After(text, s).query.Value? && FreeOfEnds(text, s, e)
  {
    hide After, AllSpans, Covers;
    forall y | s <= y < e
      ensures NoAuthority(After(text, y).link)
    {
      NoAuthorityOpens(text, s, y);
    }
    assert NoCloseIn(text, s, e);
    if !After(text, s).query.Value? {
      NothingPending(text, s);
    } else if FreeOfEnds(text, s, e) {
      forall x | s <= x < e
        ensures Covers(AllSpans(text), x)
      {
        OpenValueIsCovered(text, s, e, x);
      }
    } else {
      var y := FirstEnd(text, s, e);
      NothingPending(text, y);
    }
  }

  predicate ReadsKey(scan: Scan, length: nat) {
    scan.link == Idle && scan.query.Key? && |scan.query.name| == length
  }

  lemma KeyBegins(text: seq<Byte>)
    requires text != [] && text[0] == QUESTION
    ensures ReadsKey(After(text, 1), 0)
  {
    assert After(text, 1) == Step(START, 0, text[0]);
    hide IsSensitiveKey;
  }

  lemma KeyContinues(text: seq<Byte>, n: nat)
    requires n < |text| && 0 < n < KEY_CAP && ReadsKey(After(text, n), n - 1)
    requires !OpensKey(text[n]) && !IsTerminator(text[n]) && text[n] != EQUALS
    ensures ReadsKey(After(text, n + 1), n)
  {
    assert After(text, n + 1) == Step(After(text, n), n, text[n]);
    hide IsSensitiveKey, After;
  }

  /** Not every userinfo is hidden: in ?a://b@ the scheme is not looked for, because a key is being read. */
  lemma SomeUserinfoIsMissed() returns (text: seq<Byte>, k: int, s: int, e: int)
    ensures Userinfo(text, k, s, e) && exists x :: s <= x < e && !Covers(AllSpans(text), x)
  {
    text := [QUESTION, 97, COLON, SLASH, SLASH, 98, AT];
    k, s, e := 1, 5, 6;
    assert SchemeFrom(text, 1, 2);
    hide IsSensitiveKey;
    KeyBegins(text);
    KeyContinues(text, 1);
    KeyContinues(text, 2);
    KeyContinues(text, 3);
    KeyContinues(text, 4);
    hide After, AllSpans, Covers;
    UserinfoCoveredIff(text, k, s, e);
  }

  // ----- streams without '@'

  /** The query automaton alone. */
  function QueryAfter(text: seq<Byte>, n: nat): Query
    requires n <= |text|
  {
    if n == 0 then Outside else QueryStep(QueryAfter(text, n - 1), n - 1, text[n - 1])
  }

  function QueryFound(text: seq<Byte>, n: nat): seq<Span>
    requires n <= |text|
  {
    if n == 0 then []
    else
      var query := QueryAfter(text, n - 1);
      QueryFound(text, n - 1) +
      (if query.Value? && EndsValue(text[n - 1]) then [Span(query.start, n - 1)] else [])
  }

  /** Without '@' the schemes and authorities of the stream leave no trace: the query automaton alone decides. */
  lemma {:induction false} WithoutAtOnlyQueries(text: seq<Byte>, n: nat)
    requires AT !in text && n <= |text|
    ensures After(text, n).query == QueryAfter(text, n) && Found(text, n) == QueryFound(text, n)
  {
    if n != 0 {
      WithoutAtOnlyQueries(text, n - 1);
      hide QueryStep, LinkStep;
      assert text[n - 1] in text;
    }
  }
}
