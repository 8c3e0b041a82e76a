/** Orders on strings and the quoting of DOT attribute values.

    Strings are compared through sequences of tokens under one lexicographic
    order: byte-wise comparison of keys (as Go's `sort.Strings` does) uses one
    `Chr` token per character, and the natural, numeric-aware order of node
    names uses a `Num` token per maximal run of decimal digits. */
module Strings {
  import opened Wrappers

  datatype Token = Sep | Num(n: nat) | Chr(c: char)

  /** Sep is below every number, numbers are below characters. */
  predicate TokenLess(x: Token, y: Token) {
    match (x, y)
    case (Sep, Sep) => false
    case (Sep, _) => true
    case (Num(m), Num(n)) => m < n
    case (Num(_), Chr(_)) => true
    case (Chr(c), Chr(d)) => c < d
    case _ => false
  }

  /** Strict lexicographic order on token sequences; a proper prefix is smaller. */
  predicate LexLess(a: seq<Token>, b: seq<Token>)
    decreases |a|
  {
    if |b| == 0 then false
    else if |a| == 0 then true
    else if a[0] == b[0] then LexLess(a[1..], b[1..])
    else TokenLess(a[0], b[0])
  }

  lemma {:induction false} LexIrreflexive(a: seq<Token>)
    ensures !LexLess(a, a)
    decreases |a|
  {
    if |a| > 0 {
      LexIrreflexive(a[1..]);
    }
  }

  lemma {:induction false} LexTransitive(a: seq<Token>, b: seq<Token>, c: seq<Token>)
    requires LexLess(a, b) && LexLess(b, c)
    ensures LexLess(a, c)
    decreases |a|
  {
    if |a| > 0 && a[0] == b[0] && b[0] == c[0] {
      LexTransitive(a[1..], b[1..], c[1..]);
    }
  }

  lemma {:induction false} LexTotal(a: seq<Token>, b: seq<Token>)
    requires a != b
    ensures LexLess(a, b) || LexLess(b, a)
    decreases |a|
  {
    if |a| > 0 && |b| > 0 && a[0] == b[0] {
      assert a == [a[0]] + a[1..] && b == [b[0]] + b[1..];
      LexTotal(a[1..], b[1..]);
    }
  }

  lemma LexAsymmetric(a: seq<Token>, b: seq<Token>)
    requires LexLess(a, b)
    ensures !LexLess(b, a)
  {
    if LexLess(b, a) {
      LexTransitive(a, b, a);
      LexIrreflexive(a);
    }
  }

  /** "Not greater" is transitive: the fact insertion sort relies on. */
  lemma LexNotLessTransitive(a: seq<Token>, b: seq<Token>, c: seq<Token>)
    requires !LexLess(b, a) && !LexLess(c, b)
    ensures !LexLess(c, a)
  {
    if LexLess(c, a) {
      if a == b {
      } else {
        LexTotal(a, b);
        LexTransitive(c, a, b);
      }
    }
  }

  // ---------------------------------------------------------------------------
  // Byte-wise order of strings

  function Chars(s: string): (t: seq<Token>)
    ensures |t| == |s|
    ensures forall i :: 0 <= i < |s| ==> t[i] == Chr(s[i])
  {
    seq(|s|, i requires 0 <= i < |s| => Chr(s[i]))
  }

  lemma CharsInjective(a: string, b: string)
    requires Chars(a) == Chars(b)
    ensures a == b
  {
    assert forall i :: 0 <= i < |a| ==> Chars(a)[i] == Chars(b)[i];
  }

  /** Go's `<` on strings (code point order, which is UTF-8 byte order). */
  predicate StrLess(a: string, b: string) {
    LexLess(Chars(a), Chars(b))
  }

  lemma StrLessTotal(a: string, b: string)
    ensures a == b || StrLess(a, b) || StrLess(b, a)
    ensures !(StrLess(a, b) && StrLess(b, a))
  {
    if a != b {
      if Chars(a) == Chars(b) {
        CharsInjective(a, b);
      }
      LexTotal(Chars(a), Chars(b));
    }
    if StrLess(a, b) {
      LexAsymmetric(Chars(a), Chars(b));
    }
  }

  // ---------------------------------------------------------------------------
  // Natural (numeric-aware) order of node names

  predicate IsDigit(c: char) {
    '0' <= c <= '9'
  }

  function LeadingDigits(s: string): (k: nat)
    ensures k <= |s|
    ensures forall i :: 0 <= i < k ==> IsDigit(s[i])
    ensures k < |s| ==> !IsDigit(s[k])
  {
    if s != [] && IsDigit(s[0]) then 1 + LeadingDigits(s[1..]) else 0
  }

  function DigitValue(c: char): nat
    requires IsDigit(c)
  {
    c as int - '0' as int
  }

  function DigitsValue(s: string): nat
    requires forall i :: 0 <= i < |s| ==> IsDigit(s[i])
  {
    if s == [] then 0
    else DigitsValue(s[..|s| - 1]) * 10 + DigitValue(s[|s| - 1])
  }

  /** Splits a name into character tokens and one number token per maximal run
      of digits, so that "B2" sorts before "B10". */
  function NatTokens(s: string): (t: seq<Token>)
    ensures Sep !in t
    decreases |s|
  {
    if s == [] then []
    else if IsDigit(s[0]) then
      var k := LeadingDigits(s);
      [Num(DigitsValue(s[..k]))] + NatTokens(s[k..])
    else
      [Chr(s[0])] + NatTokens(s[1..])
  }

  /** Sort key of a name: its natural tokens, then (to break ties between
      names such as "B01" and "B1") its characters. */
  function NatKey(s: string): seq<Token> {
    NatTokens(s) + [Sep] + Chars(s)
  }

  /** The separator is the first `Sep` of a key, so it marks where the
      character tiebreak starts. */
  lemma SeparatorPosition(s: string)
    ensures NatKey(s)[|NatTokens(s)|] == Sep
    ensures forall k :: 0 <= k < |NatTokens(s)| ==> NatKey(s)[k] != Sep
  {
    var t := NatTokens(s);
    assert forall k :: 0 <= k < |t| ==> NatKey(s)[k] == t[k];
  }

  lemma NatKeyInjective(a: string, b: string)
    requires NatKey(a) == NatKey(b)
    ensures a == b
  {
    var ta, tb := NatTokens(a), NatTokens(b);
    SeparatorPosition(a);
    SeparatorPosition(b);
    assert Chars(a) == NatKey(a)[|ta| + 1..];
    assert Chars(b) == NatKey(b)[|tb| + 1..];
    CharsInjective(a, b);
  }

  /** The natural order of DOT ids used to order successors. */
  predicate NatLess(a: string, b: string) {
    LexLess(NatKey(a), NatKey(b))
  }

  lemma NatLessStrictTotal(a: string, b: string)
    ensures a == b || NatLess(a, b) || NatLess(b, a)
    ensures !(NatLess(a, b) && NatLess(b, a))
    ensures !NatLess(a, a)
  {
    LexIrreflexive(NatKey(a));
    if a != b {
      if NatKey(a) == NatKey(b) {
        NatKeyInjective(a, b);
      }
      LexTotal(NatKey(a), NatKey(b));
    }
    if NatLess(a, b) {
      LexAsymmetric(NatKey(a), NatKey(b));
    }
  }

  // ---------------------------------------------------------------------------
  // Quoting

  /** Escape of one character: double quote and backslash get a backslash. */
  function EscapeChar(c: char): string {
    if c == '"' || c == '\\' then ['\\', c] else [c]
  }

  function Escape(s: string): string
    decreases |s|
  {
    if s == [] then [] else EscapeChar(s[0]) + Escape(s[1..])
  }

  /** A double-quoted Go string literal of `s`, for ASCII text. */
  function Quote(s: string): (q: string)
    ensures |q| >= 2 && q[0] == '"' && q[|q| - 1] == '"'
  {
    ['"'] + Escape(s) + ['"']
  }

  function Unescape(s: string): Option<string>
    decreases |s|
  {
    if s == [] then Some([])
    else if s[0] == '"' then None
    else if s[0] == '\\' then
      if |s| >= 2 && (s[1] == '"' || s[1] == '\\') then
        match Unescape(s[2..])
        case Some(t) => Some([s[1]] + t)
        case None => None
      else None
    else
      match Unescape(s[1..])
      case Some(t) => Some([s[0]] + t)
      case None => None
  }

  /** Reads back a literal produced by `Quote`. */
  function Unquote(q: string): Option<string> {
    if |q| >= 2 && q[0] == '"' && q[|q| - 1] == '"' then Unescape(q[1..|q| - 1])
    else None
  }

  lemma {:induction false} UnescapeEscape(s: string)
    ensures Unescape(Escape(s)) == Some(s)
    decreases |s|
  {
    if s != [] {
      UnescapeEscape(s[1..]);
      var e := Escape(s);
      assert e == EscapeChar(s[0]) + Escape(s[1..]);
      if s[0] == '"' || s[0] == '\\' {
        assert e[2..] == Escape(s[1..]);
      } else {
        assert e[1..] == Escape(s[1..]);
      }
      assert s == [s[0]] + s[1..];
    }
  }

  lemma QuoteRoundTrip(s: string)
    ensures Unquote(Quote(s)) == Some(s)
  {
    var q := Quote(s);
    assert q[1..|q| - 1] == Escape(s);
    UnescapeEscape(s);
  }
}
