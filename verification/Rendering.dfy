/**
 * Pieces of text that are lexed into given lexemes wherever they are written, and how such
 * pieces can be put together. Both writers are built from these.
 */
module Rendering {
  import opened Bytes
  import opened StringCodec
  import opened StringTheorems
  import opened Numbers
  import opened Lexer
  import opened LexerTheorems
  import opened Values
  import opened FastWriters

  /** What may follow a number without becoming part of it. */
  predicate EndsNumber(post: Bytes) {
    post == [] || !IsNumberChar(post[0])
  }

  lemma {:induction false} DigitsAreSkipped(t: Bytes, i: nat, j: nat)
    requires i <= j <= |t|
    requires forall m | i <= m < j :: IsDigit(t[m])
    requires j == |t| || !IsDigit(t[j])
    ensures SkipDigits(t, i) == j
    decreases j - i
  {
    if i < j {
      DigitsAreSkipped(t, i + 1, j);
    }
  }

  lemma LexInteger(i: int, post: Bytes)
    requires EndsNumber(post)
    ensures Lex(IntText(i) + post) == [Lexeme(NumberToken, IntText(i))] + Lex(post)
  {
    hide UIntText, NatOf;
    var x := IntText(i);
    var t := x + post;
    UIntTextValue(if i < 0 then -i else i);
    assert forall m | 1 <= m < |x| :: IsDigit(x[m]);
    assert x[0] == MINUS || IsDigit(x[0]);
    forall m | 1 <= m < |x| ensures IsDigit(t[m]) {
      assert t[m] == x[m];
    }
    assert |x| < |t| ==> t[|x|] == post[0];
    DigitsAreSkipped(t, 1, |x|);
    LexFront(x, NumberToken, post);
  }

  lemma LexQuoted(s: Bytes, post: Bytes)
    ensures Lex(Quote(s) + post) == [Lexeme(StringToken, Quote(s))] + Lex(post)
  {
    hide QuoteBody;
    var t := Quote(s) + post;
    assert t[0..|Quote(s)|] == Quote(s);
    QuoteScans(t, 0, s);
    LexFront(Quote(s), StringToken, post);
  }

  lemma LexWord(first: byte, word: Bytes, kind: Kind, post: Bytes)
    requires (first, word, kind) == (LOWER_T, TRUE_TAIL, TrueToken)
          || (first, word, kind) == (LOWER_F, FALSE_TAIL, FalseToken)
          || (first, word, kind) == (LOWER_N, NULL_TAIL, NullToken)
    ensures Lex([first] + word + post) == [Lexeme(kind, [first] + word)] + Lex(post)
  {
    var t := [first] + word + post;
    assert t[1..1 + |word|] == word;
    LexFront([first] + word, kind, post);
  }

  lemma LexScalar(s: Scalar, post: Bytes)
    requires Writable(Leaf(s)) && EndsNumber(post)
    ensures Lex(ScalarLexeme(s).text + post) == [ScalarLexeme(s)] + Lex(post)
  {
    hide Lex, Quote, UIntText;
    match s
    case Null => LexWord(LOWER_N, NULL_TAIL, NullToken, post);
    case Bool(true) => LexWord(LOWER_T, TRUE_TAIL, TrueToken, post);
    case Bool(false) => LexWord(LOWER_F, FALSE_TAIL, FalseToken, post);
    case Int(i) => LexInteger(i, post);
    case UInt(u) => LexInteger(u, post);
    case Str(b) => LexQuoted(b, post);
  }

  // ---------------------------------------------------------------- rendering

  /**
   * `text` renders the lexemes `ls`: wherever it is written, provided that nothing that follows
   * extends a number, it is lexed into `ls`.
   */
  ghost predicate Renders(text: Bytes, ls: seq<Lexeme>) {
    forall post | EndsNumber(post) :: Lex(text + post) == ls + Lex(post)
  }

  lemma RendersScalar(s: Scalar)
    requires Writable(Leaf(s))
    ensures Renders(ScalarLexeme(s).text, [ScalarLexeme(s)])
  {
    hide Lex, ScalarLexeme;
    forall post | EndsNumber(post) ensures Lex(ScalarLexeme(s).text + post) == [ScalarLexeme(s)] + Lex(post) {
      LexScalar(s, post);
    }
  }

  predicate AllSpaces(w: Bytes) {
    forall k | 0 <= k < |w| :: IsSpace(w[k])
  }

  lemma {:induction false} LexSpaces(w: Bytes, post: Bytes)
    requires AllSpaces(w)
    ensures Lex(w + post) == Lex(post)
  {
    hide Lex;
    if w == [] {
      assert w + post == post;
    } else {
      assert w + post == [w[0]] + (w[1..] + post);
      LexSpace(w[0], w[1..] + post);
      LexSpaces(w[1..], post);
    }
  }

  /** `text` renders `ls` whatever follows: it does not end in a number. */
  ghost predicate RendersClosed(text: Bytes, ls: seq<Lexeme>) {
    forall post :: Lex(text + post) == ls + Lex(post)
  }

  lemma ClosedMark(c: byte)
    requires Punctuation(c) != ErrorToken && c != NUL
    ensures RendersClosed([c], [Mark(c)])
  {
    hide Lex, Punctuation;
    forall post ensures Lex([c] + post) == [Mark(c)] + Lex(post) {
      LexPunctuation(c, post);
    }
  }

  lemma ClosedQuoted(s: Bytes)
    ensures RendersClosed(Quote(s), [Lexeme(StringToken, Quote(s))])
  {
    hide Lex, Quote;
    forall post ensures Lex(Quote(s) + post) == [Lexeme(StringToken, Quote(s))] + Lex(post) {
      LexQuoted(s, post);
    }
  }

  lemma ClosedSpaces(w: Bytes)
    requires AllSpaces(w)
    ensures RendersClosed(w, [])
  {
    hide Lex;
    forall post ensures Lex(w + post) == [] + Lex(post) {
      LexSpaces(w, post);
      assert [] + Lex(post) == Lex(post);
    }
  }

  lemma ClosedConcat(a: Bytes, x: seq<Lexeme>, b: Bytes, y: seq<Lexeme>)
    requires RendersClosed(a, x) && RendersClosed(b, y)
    ensures RendersClosed(a + b, x + y)
  {
    hide Lex;
    forall post ensures Lex(a + b + post) == x + y + Lex(post) {
      assert a + b + post == a + (b + post);
      assert Lex(a + (b + post)) == x + Lex(b + post);
      assert x + (y + Lex(post)) == x + y + Lex(post);
    }
  }

  lemma ClosedIsRendered(a: Bytes, x: seq<Lexeme>)
    requires RendersClosed(a, x)
    ensures Renders(a, x)
  {
    hide Lex;
  }

  lemma ThenClosed(a: Bytes, x: seq<Lexeme>, b: Bytes, y: seq<Lexeme>)
    requires Renders(a, x) && RendersClosed(b, y)
    requires b != [] && EndsNumber(b)
    ensures RendersClosed(a + b, x + y)
  {
    hide Lex;
    forall post ensures Lex(a + b + post) == x + y + Lex(post) {
      assert a + b + post == a + (b + post);
      assert EndsNumber(b + post);
      assert Lex(a + (b + post)) == x + Lex(b + post);
      assert x + (y + Lex(post)) == x + y + Lex(post);
    }
  }
}
