/**
 What the scanner is reading at each offset, told on the text alone: a grammar without states
 (internal/service/aggregate.go:595-741).
*/
module RedactionGrammar {
  import opened Bytes
  import opened Spans
  import opened RedactionSpec
  import opened RedactionTheorems

  // ----- the grammar

  /** A key opens at p, unless that is a '?' inside a sensitive value. */
  ghost predicate KeyStarts(text: seq<Byte>, p: nat)
    decreases p, 1
  {
    p < |text| && OpensKey(text[p]) && !(text[p] == QUESTION && exists v :: InValue(text, v, p))
  }

  /** Offset n lies in a key, or right behind it. */
  ghost predicate InKey(text: seq<Byte>, n: nat)
    decreases n, 0
  {
    exists p: nat | p < n :: KeyStarts(text, p) && KeyRun(text, p, n) && NoCloses(text, p, n)
  }

  /** Offset n lies in the value of a sensitive key that begins at v, or right behind what has been read of it. */
  ghost predicate InValue(text: seq<Byte>, v: int, n: nat)
    decreases n, 0
  {
    0 <= v && exists p: nat | p < n ::
      KeyStarts(text, p) && KeyAt(text, p, v) && FreeOfEnds(text, v, n) && NoCloses(text, v, n)
  }

  /** A scheme may begin at k. */
  ghost predicate SchemeStarts(text: seq<Byte>, k: nat)
    decreases k, 1
  {
    k < |text| && !InKey(text, k) && (forall v :: !InValue(text, v, k)) && (forall s :: !InAuthority(text, s, k))
  }

  /** Offset n lies in the authority that begins at s, before anything that ends it. */
  ghost predicate InAuthority(text: seq<Byte>, s: int, n: nat)
    decreases n, 0
  {
    exists k: nat | k < n :: SchemeStarts(text, k) && AuthorityFrom(text, k, s) && UserinfoBytes(text, s, n)
  }

  /** The '@' at y ends an authority. */
  ghost predicate Closes(text: seq<Byte>, y: nat)
    decreases y, 1
  {
    y < |text| && text[y] == AT && exists s :: InAuthority(text, s, y)
  }

  ghost predicate NoCloses(text: seq<Byte>, from: nat, n: nat)
    decreases n, 0, 0
  {
    forall y: nat | from <= y < n :: !Closes(text, y)
  }

  // ----- the automata read what the grammar says

  /** The states at offset n, told by the grammar. */
  ghost predicate Agrees(text: seq<Byte>, n: nat)
    requires n <= |text|
  {
    && (After(text, n).query.Key? <==> InKey(text, n))
    && (forall v :: After(text, n).query == Value(v) <==> InValue(text, v, n))
    && (forall s :: After(text, n).link == Authority(s) <==> InAuthority(text, s, n))
  }

  /** What may begin or end at an offset depends on the states there. */
  ghost predicate SameTurns(text: seq<Byte>, p: nat) {
    && (KeyOpensAt(text, p) <==> KeyStarts(text, p))
    && (SchemeOpensAt(text, p) <==> SchemeStarts(text, p))
    && (ClosesAt(text, p) <==> Closes(text, p))
  }

  lemma TurnsAgree(text: seq<Byte>, p: nat)
    requires p < |text| && Agrees(text, p)
    ensures SameTurns(text, p)
  {
    var scan := After(text, p);
    hide After, InKey, InValue, InAuthority;
    if scan.query.Value? {
      assert InValue(text, scan.query.start, p);
    }
    if scan.link.Authority? {
      assert InAuthority(text, scan.link.start, p);
    }
    assert scan.query.Value? <==> exists v :: InValue(text, v, p);
    assert scan.link.Authority? <==> exists s :: InAuthority(text, s, p);
    assert KeyOpensAt(text, p) <==> KeyStarts(text, p);
    assert SchemeOpensAt(text, p) <==> SchemeStarts(text, p);
    assert ClosesAt(text, p) <==> Closes(text, p);
  }

  lemma ClosesAgree(text: seq<Byte>, from: nat, n: nat)
    requires n <= |text| && forall p: nat | p < n :: SameTurns(text, p)
    ensures NoCloseIn(text, from, n) <==> NoCloses(text, from, n)
  {
    hide ClosesAt, Closes, KeyOpensAt, KeyStarts, SchemeOpensAt, SchemeStarts;
    forall y: nat | from <= y < n
      ensures ClosesAt(text, y) <==> Closes(text, y)
    {
      assert SameTurns(text, y);
    }
  }

  lemma KeysAgree(text: seq<Byte>, n: nat)
    requires n <= |text| && forall p: nat | p < n :: SameTurns(text, p)
    ensures After(text, n).query.Key? <==> InKey(text, n)
  {
    KeyIsReadIff(text, n);
    hide After, KeyOpensAt, KeyStarts, NoCloseIn, NoCloses, SchemeOpensAt, SchemeStarts, ClosesAt, Closes;
    forall p: nat | p < n
      ensures NoCloseIn(text, p, n) <==> NoCloses(text, p, n)
      ensures KeyOpensAt(text, p) <==> KeyStarts(text, p)
    {
      ClosesAgree(text, p, n);
      assert SameTurns(text, p);
    }
  }

  lemma ValuesAgree(text: seq<Byte>, v: int, n: nat)
    requires n <= |text| && forall p: nat | p < n :: SameTurns(text, p)
    ensures After(text, n).query == Value(v) <==> InValue(text, v, n)
  {
    ValueIsReadIff(text, v, n);
    if 0 <= v {
      ClosesAgree(text, v, n);
    }
    hide After, KeyOpensAt, KeyStarts, NoCloseIn, NoCloses, SchemeOpensAt, SchemeStarts, ClosesAt, Closes;
    assert forall p: nat | p < n && SameTurns(text, p) :: KeyOpensAt(text, p) <==> KeyStarts(text, p);
  }

  lemma AuthoritiesAgree(text: seq<Byte>, s: int, n: nat)
    requires n <= |text| && forall p: nat | p < n :: SameTurns(text, p)
    ensures After(text, n).link == Authority(s) <==> InAuthority(text, s, n)
  {
    AuthorityIsReadIff(text, s, n);
    hide After, KeyOpensAt, KeyStarts, NoCloseIn, NoCloses, SchemeOpensAt, SchemeStarts, ClosesAt, Closes;
    assert forall k: nat | k < n && SameTurns(text, k) :: SchemeOpensAt(text, k) <==> SchemeStarts(text, k);
  }

  lemma {:induction false} AgreesUpTo(text: seq<Byte>, n: nat)
    requires n <= |text|
    ensures Agrees(text, n) && forall p: nat | p < n :: SameTurns(text, p)
  {
    if n > 0 {
      AgreesUpTo(text, n - 1);
      TurnsAgree(text, n - 1);
    }
    hide SameTurns;
    KeysAgree(text, n);
    forall v {
      ValuesAgree(text, v, n);
    }
    forall s {
      AuthoritiesAgree(text, s, n);
    }
  }

  /**
   What the automata are reading at every offset of every stream is what the grammar says: a key, the value that begins
   at v, the authority that begins at s.
  */
  lemma StatesFollowGrammar(text: seq<Byte>, n: nat)
    requires n <= |text|
    ensures After(text, n).query.Key? <==> InKey(text, n)
    ensures forall v :: After(text, n).query == Value(v) <==> InValue(text, v, n)
    ensures forall s :: After(text, n).link == Authority(s) <==> InAuthority(text, s, n)
  {
    AgreesUpTo(text, n);
    hide After, InKey, InValue, InAuthority;
  }

  /** Where keys and schemes begin and where authorities close, told on the text alone. */
  lemma TurnsFollowGrammar(text: seq<Byte>, p: nat)
    ensures KeyOpensAt(text, p) <==> KeyStarts(text, p)
    ensures SchemeOpensAt(text, p) <==> SchemeStarts(text, p)
    ensures ClosesAt(text, p) <==> Closes(text, p)
  {
    if p < |text| {
      AgreesUpTo(text, p);
      TurnsAgree(text, p);
    }
    hide After, InKey, InValue, InAuthority;
  }

  // ----- main theorem

  /** text[s..e] is the whole value of a sensitive key that starts as one, and no authority closes in it. */
  ghost predicate HidesValue(text: seq<Byte>, s: nat, e: nat) {
    exists p: nat :: SensitiveValue(text, p, s, e) && KeyStarts(text, p) && NoCloses(text, s, e)
  }

  /** text[s..e] is the non-empty userinfo of a URL whose scheme is looked for. */
  ghost predicate HidesUserinfo(text: seq<Byte>, s: nat, e: nat) {
    exists k: nat :: Userinfo(text, k, s, e) && SchemeStarts(text, k)
  }

  /** The recorded spans of every stream, told on the text alone. */
  lemma SpansFollowGrammar(text: seq<Byte>, s: nat, e: nat)
    ensures Span(s, e) in AllSpans(text) <==> HidesValue(text, s, e) || HidesUserinfo(text, s, e)
  {
    SpansCharacterised(text, s, e);
    forall p: nat
      ensures SameTurns(text, p)
    {
      TurnsFollowGrammar(text, p);
    }
    hide AllSpans, KeyOpensAt, KeyStarts, SchemeOpensAt, SchemeStarts, ClosesAt, Closes;
    assert NoCloseIn(text, s, e) <==> NoCloses(text, s, e) by {
      forall y: nat | s <= y < e
        ensures ClosesAt(text, y) <==> Closes(text, y)
      {
        assert SameTurns(text, y);
      }
    }
    forall p: nat
      ensures (KeyOpensAt(text, p) <==> KeyStarts(text, p)) && (SchemeOpensAt(text, p) <==> SchemeStarts(text, p))
    {
      assert SameTurns(text, p);
    }
    hide SensitiveValue, Userinfo, NoCloseIn, NoCloses;
  }
}
