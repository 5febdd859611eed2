/** Byte classes used by the redaction scanner (internal/service/aggregate.go:790-817). */
module Bytes {

  type Byte = b: int | 0 <= b < 256

  const AMPERSAND: Byte := 38
  const AT: Byte := 64
  const COLON: Byte := 58
  const EQUALS: Byte := 61
  const QUESTION: Byte := 63
  const SLASH: Byte := 47

  /** The longest query key the scanner is willing to buffer. */
  const KEY_CAP: nat := 64

  /** The bytes spell the given ASCII text. */
  predicate Spells(bytes: seq<Byte>, text: string) {
    |bytes| == |text| && forall i | 0 <= i < |bytes| :: bytes[i] == text[i] as int
  }

  predicate IsAlpha(b: Byte) {
    'a' as int <= b <= 'z' as int || 'A' as int <= b <= 'Z' as int
  }

  predicate IsSchemeByte(b: Byte) {
    IsAlpha(b) || '0' as int <= b <= '9' as int || b == '+' as int || b == '-' as int || b == '.' as int
  }

  /** Space, tab, newline, form feed and carriage return; vertical tab is not in the class. */
  predicate IsSpace(b: Byte) {
    b == 32 || b == 9 || b == 10 || b == 12 || b == 13
  }

  /** '#', single quote, double quote and white space end a key or a value; '&' is treated apart. */
  predicate IsTerminator(b: Byte) {
    b == 35 || b == 39 || b == 34 || IsSpace(b)
  }

  /** The classes [a-z] and [a-z0-9+.-] of the expression for URLs, case ignored; case is that of ASCII letters. */
  lemma SchemeAsExpression(b: Byte)
    ensures IsAlpha(b) <==> 'a' <= Lower(b) as char <= 'z'
    ensures IsSchemeByte(b) <==>
            var c := Lower(b) as char;
            'a' <= c <= 'z' || '0' <= c <= '9' || c in {'+', '-', '.'}
    ensures Lower(b) != b <==> 'A' <= b as char <= 'Z'
    ensures Lower(b) != b ==> Lower(b) - b == 'a' as int - 'A' as int
  {
  }

  /** The bytes that end a sensitive value. */
  predicate EndsValue(b: Byte) {
    b == AMPERSAND || IsTerminator(b)
  }

  /** They are the class [&#\s'"] of the expression for complete output: both cut a value at the same bytes. */
  lemma EndsAsExpression(b: Byte)
    ensures EndsValue(b) <==> exists i :: 0 <= i < |VALUE_ENDS| && VALUE_ENDS[i] as int == b
  {
    assert VALUE_ENDS[0] == '&' && VALUE_ENDS[1] == '#' && VALUE_ENDS[2] == '\'' && VALUE_ENDS[3] == '"';
    assert VALUE_ENDS[4] == ' ' && VALUE_ENDS[5] == '\t' && VALUE_ENDS[6] == '\n' && VALUE_ENDS[8] == '\r';
    assert VALUE_ENDS[7] as int == 12;
  }

  const VALUE_ENDS := "&#'\" \t\n\U{000C}\r"

  /** The bytes that open a query key. */
  predicate OpensKey(b: Byte) {
    b == QUESTION || b == AMPERSAND
  }

  function Lower(b: Byte): Byte {
    if 'A' as int <= b <= 'Z' as int then b + 32 else b
  }

  function LowerAll(bytes: seq<Byte>): (lower: seq<Byte>)
    ensures |lower| == |bytes|
  {
    seq(|bytes|, i requires 0 <= i < |bytes| => Lower(bytes[i]))
  }

  predicate IsSensitiveKey(key: seq<Byte>) {
    || Spells(key, "token")
    || Spells(key, "access_token")
    || Spells(key, "password")
    || Spells(key, "passwd")
    || Spells(key, "secret")
    || Spells(key, "api_key")
    || Spells(key, "apikey")
    || Spells(key, "auth")
    || Spells(key, "authorization")
  }

  /** The keys of the expression for complete output. */
  const EXPRESSION_KEYS := ["token", "access_token", "password", "passwd", "secret", "api_key", "apikey", "auth",
                            "authorization"]

  /** The scanner looks for the same keys as that expression. */
  lemma KeysAsExpression(key: seq<Byte>)
    ensures IsSensitiveKey(key) <==> exists i :: 0 <= i < |EXPRESSION_KEYS| && Spells(key, EXPRESSION_KEYS[i])
  {
    hide Spells;
    if IsSensitiveKey(key) {
      assert || Spells(key, EXPRESSION_KEYS[0]) || Spells(key, EXPRESSION_KEYS[1]) || Spells(key, EXPRESSION_KEYS[2])
             || Spells(key, EXPRESSION_KEYS[3]) || Spells(key, EXPRESSION_KEYS[4]) || Spells(key, EXPRESSION_KEYS[5])
             || Spells(key, EXPRESSION_KEYS[6]) || Spells(key, EXPRESSION_KEYS[7]) || Spells(key, EXPRESSION_KEYS[8]);
    }
  }

  predicate IsKeyByte(b: Byte) {
    'a' as int <= b <= 'z' as int || b == '_' as int
  }

  /** Every sensitive key fits the buffer and is spelled with lower-case letters and underscores. */
  lemma SensitiveKeyShape(key: seq<Byte>)
    requires IsSensitiveKey(key)
    ensures 0 < |key| < KEY_CAP
    ensures forall i | 0 <= i < |key| :: IsKeyByte(key[i])
  {
  }
}
