/**
 * How the tokens of a part of a document relate to the tokens of the whole. Throughout,
 * `u` is the part t[s..k]; offset `i` of `u` is offset `s + i` of `t`.
 */
module LexerTheorems {
  import opened Bytes
  import opened StringCodec
  import opened Lexer
  import opened Seqs

  predicate IsPart(t: Bytes, s: nat, k: nat, u: Bytes) {
    s <= k <= |t| && u == t[s..k]
  }

  lemma PartAt(t: Bytes, s: nat, k: nat, u: Bytes, i: nat)
    requires IsPart(t, s, k, u) && i < |u|
    ensures u[i] == t[s + i]
  {
  }

  // ---------------------------------------------------------------- scanners on a part

  lemma {:induction false} SpacesOfPart(t: Bytes, s: nat, k: nat, u: Bytes, i: nat)
    requires IsPart(t, s, k, u) && i <= |u|
    ensures s + SkipSpaces(u, i) == Min(SkipSpaces(t, s + i), k)
    decreases |u| - i
  {
    if i < |u| {
      PartAt(t, s, k, u, i);
      if IsSpace(u[i]) {
        SpacesOfPart(t, s, k, u, i + 1);
      }
    }
  }

  lemma {:induction false} DigitsOfPart(t: Bytes, s: nat, k: nat, u: Bytes, i: nat)
    requires IsPart(t, s, k, u) && i <= |u|
    ensures s + SkipDigits(u, i) == Min(SkipDigits(t, s + i), k)
    decreases |u| - i
  {
    if i < |u| {
      PartAt(t, s, k, u, i);
      if IsDigit(u[i]) {
        DigitsOfPart(t, s, k, u, i + 1);
      }
    }
  }

  lemma FractionOfPart(t: Bytes, s: nat, k: nat, u: Bytes, i: nat)
    requires IsPart(t, s, k, u) && i <= |u|
    ensures s + SkipFraction(u, i) == Min(SkipFraction(t, s + i), k)
  {
    hide SkipDigits;
    if i < |u| {
      PartAt(t, s, k, u, i);
      DigitsOfPart(t, s, k, u, i + 1);
    }
  }

  lemma ExponentOfPart(t: Bytes, s: nat, k: nat, u: Bytes, i: nat)
    requires IsPart(t, s, k, u) && i <= |u|
    ensures s + SkipExponent(u, i) == Min(SkipExponent(t, s + i), k)
  {
    hide SkipDigits;
    if i < |u| {
      PartAt(t, s, k, u, i);
      DigitsOfPart(t, s, k, u, i + 1);
      if i + 1 < |u| {
        PartAt(t, s, k, u, i + 1);
        DigitsOfPart(t, s, k, u, i + 2);
      }
    }
  }

  lemma NumberOfPart(t: Bytes, s: nat, k: nat, u: Bytes, i: nat)
    requires IsPart(t, s, k, u) && i <= |u|
    ensures s + ScanNumber(u, i) == Min(ScanNumber(t, s + i), k)
  {
    hide SkipDigits, SkipFraction, SkipExponent;
    var d := SkipDigits(u, i);
    var f := SkipFraction(u, d);
    DigitsOfPart(t, s, k, u, i);
    FractionOfPart(t, s, k, u, d);
    ExponentOfPart(t, s, k, u, f);
    if SkipDigits(t, s + i) >= k {
      AtEnd(u);
    } else if SkipFraction(t, s + d) >= k {
      AtEnd(u);
    }
  }

  lemma AtEnd(u: Bytes)
    ensures SkipFraction(u, |u|) == |u| && SkipExponent(u, |u|) == |u|
  {
  }

  lemma {:induction false} StringOfPart(t: Bytes, s: nat, k: nat, u: Bytes, i: nat)
    requires IsPart(t, s, k, u) && i <= |u|
    ensures var a, b := ScanString(t, s + i), ScanString(u, i);
            && (b.ok <==> a.ok && a.end <= k)
            && (b.ok ==> a.end == s + b.end)
    decreases |u| - i
  {
    if i < |u| {
      PartAt(t, s, k, u, i);
      if u[i] == BACKSLASH {
        if i + 1 < |u| {
          StringOfPart(t, s, k, u, i + 2);
        }
      } else if u[i] != QUOTE {
        StringOfPart(t, s, k, u, i + 1);
      }
    }
  }

  lemma WordOfPart(t: Bytes, s: nat, k: nat, u: Bytes, i: nat, word: Bytes)
    requires IsPart(t, s, k, u) && i <= |u|
    ensures var a, b := ScanWord(t, s + i, word), ScanWord(u, i, word);
            && (b.ok <==> a.ok && a.end <= k)
            && (b.ok || !a.ok ==> a.end == s + b.end)
            && (a.ok && !b.ok ==> word != [] && |u| - i < |word| && u[i..] == word[..|u| - i])
  {
    if i + |word| <= |u| {
      SliceOfSlice(t, s, k, i, i + |word|);
    } else if s + i + |word| <= |t| && t[s + i..s + i + |word|] == word {
      assert u[i..] == word[..|u| - i] by {
        forall j | 0 <= j < |u| - i ensures u[i..][j] == word[j] {
          PartAt(t, s, k, u, i + j);
          assert t[s + i..s + i + |word|][j] == t[s + i + j];
        }
      }
    }
  }

  lemma {:induction false} CCommentOfPart(t: Bytes, s: nat, k: nat, u: Bytes, i: nat)
    requires IsPart(t, s, k, u) && i <= |u|
    ensures var a, b := ScanCComment(t, s + i), ScanCComment(u, i);
            a.end < k || b.end < |u| || k == |t| ==> a.ok == b.ok && a.end == s + b.end
    decreases |u| - i
  {
    if i < |u| {
      PartAt(t, s, k, u, i);
      if i + 1 < |u| {
        PartAt(t, s, k, u, i + 1);
        if !(u[i] == STAR && u[i + 1] == SLASH) {
          CCommentOfPart(t, s, k, u, i + 1);
        }
      }
    }
  }

  lemma {:induction false} LineCommentOfPart(t: Bytes, s: nat, k: nat, u: Bytes, i: nat)
    requires IsPart(t, s, k, u) && i <= |u|
    ensures s + ScanLineComment(u, i) == Min(ScanLineComment(t, s + i), k)
    decreases |u| - i
  {
    if i < |u| {
      PartAt(t, s, k, u, i);
      if i + 1 < |u| {
        PartAt(t, s, k, u, i + 1);
      }
      if u[i] != LF && u[i] != CR {
        LineCommentOfPart(t, s, k, u, i + 1);
      }
    }
  }

  lemma CommentOfPart(t: Bytes, s: nat, k: nat, u: Bytes, i: nat)
    requires IsPart(t, s, k, u) && i <= |u|
    ensures var a, b := ScanComment(t, s + i), ScanComment(u, i);
            a.end < k || b.end < |u| || k == |t| ==> a.ok == b.ok && a.end == s + b.end
  {
    hide ScanCComment, ScanLineComment;
    if i < |u| {
      PartAt(t, s, k, u, i);
      CCommentOfPart(t, s, k, u, i + 1);
      LineCommentOfPart(t, s, k, u, i + 1);
    }
  }

  // ---------------------------------------------------------------- tokens of a part

  predicate Fragile(kind: Kind) {
    kind == NumberToken || kind == Comment || kind == ErrorToken
  }

  predicate SameShape(a: Shape, b: Shape, s: nat) {
    a.kind == b.kind && a.end == s + b.end
  }

  /** What a cut through one of the three literals leaves behind: letters that start no token. */
  predicate OnlyErrors(u: Bytes, i: nat) {
    forall j | i <= j < |u| :: Punctuation(u[j]) == ErrorToken && IsLetterInside(u[j])
  }

  predicate IsLetterInside(c: byte) {
    c == LOWER_R || c == LOWER_U || c == LOWER_E || c == LOWER_A || c == 0x6C || c == 0x73
  }

  lemma WordTokenOfPart(t: Bytes, s: nat, k: nat, u: Bytes, i: nat, kind: Kind, word: Bytes)
    requires IsPart(t, s, k, u) && i <= |u| && kind != ErrorToken
    requires word == TRUE_TAIL || word == FALSE_TAIL || word == NULL_TAIL
    ensures var a, b := Finish(kind, ScanWord(t, s + i, word)), Finish(kind, ScanWord(u, i, word));
            && (a.end <= k || b.kind != ErrorToken ==> SameShape(a, b, s))
            && (SameShape(a, b, s) || (b.kind == ErrorToken && b.end == i && OnlyErrors(u, i)))
  {
    WordOfPart(t, s, k, u, i, word);
    var a, b := ScanWord(t, s + i, word), ScanWord(u, i, word);
    if a.ok && !b.ok {
      assert forall j | i <= j < |u| :: u[j] == u[i..][j - i] == word[j - i];
    }
  }

  /** One token of the part against the token of the whole at the same place. */
  lemma TokenOfPart(t: Bytes, s: nat, k: nat, u: Bytes, i: nat)
    requires IsPart(t, s, k, u) && i < |u|
    ensures var a, b := TokenAt(t, s + i), TokenAt(u, i);
            && (a.end < k || k == |t| ==> SameShape(a, b, s))
            && (a.end <= k && a.kind != Comment && a.kind != ErrorToken ==> SameShape(a, b, s))
            && (b.end < |u| && b.kind != ErrorToken ==> SameShape(a, b, s))
            && (!Fragile(b.kind) ==> SameShape(a, b, s))
            && (SameShape(a, b, s) || b.end == |u| || (b.end == i + 1 && b.kind == ErrorToken && OnlyErrors(u, i + 1)))
  {
    hide ScanString, ScanComment, ScanNumber, ScanWord, OnlyErrors;
    PartAt(t, s, k, u, i);
    var c := u[i];
    if c == QUOTE {
      StringOfPart(t, s, k, u, i + 1);
    } else if c == SLASH {
      CommentOfPart(t, s, k, u, i + 1);
    } else if IsDigit(c) || c == MINUS {
      NumberOfPart(t, s, k, u, i + 1);
    } else if c == LOWER_T {
      WordTokenOfPart(t, s, k, u, i + 1, TrueToken, TRUE_TAIL);
    } else if c == LOWER_F {
      WordTokenOfPart(t, s, k, u, i + 1, FalseToken, FALSE_TAIL);
    } else if c == LOWER_N {
      WordTokenOfPart(t, s, k, u, i + 1, NullToken, NULL_TAIL);
    }
  }
  /** `a` read in the whole and `b` read in the part are the same token up to the offset. */
  predicate SameToken(a: Token, b: Token, s: nat) {
    LexemeOf(a) == LexemeOf(b) && a.start == s + b.start && a.end == s + b.end
  }

  lemma ReadTokenOfPart(t: Bytes, s: nat, k: nat, u: Bytes, i: nat)
    requires IsPart(t, s, k, u) && i <= |u|
    ensures var a, b := ReadToken(t, s + i), ReadToken(u, i);
            && (a.end < k || k == |t| ==> SameToken(a, b, s))
            && (a.end <= k && a.start < a.end && a.kind != Comment && a.kind != ErrorToken ==> SameToken(a, b, s))
            && (b.start < |u| && !Fragile(b.kind) ==> SameToken(a, b, s))
            && (b.start < |u| ==>
                SameToken(a, b, s) || b.end == |u| || (b.kind == ErrorToken && OnlyErrors(u, b.end)))
  {
    hide TokenAt, OnlyErrors, SkipSpaces;
    SpacesOfPart(t, s, k, u, i);
    var at := SkipSpaces(u, i);
    if at < |u| {
      TokenOfPart(t, s, k, u, at);
      if TokenAt(t, s + at).end == s + TokenAt(u, at).end {
        SliceOfSlice(t, s, k, at, TokenAt(u, at).end);
      }
    }
  }

  // ---------------------------------------------------------------- suffixes

  /** Tokens do not depend on what precedes them. */
  lemma {:induction false} TokensOfSuffix(t: Bytes, s: nat, i: nat)
    requires s + i <= |t|
    ensures Lexemes(TokensFrom(t, s + i)) == Lexemes(TokensFrom(t[s..], i))
    decreases |t| - s - i
  {
    hide ReadToken;
    var u := t[s..];
    ReadTokenOfPart(t, s, |t|, u, i);
    var a, b := ReadToken(t, s + i), ReadToken(u, i);
    if b.start < |u| {
      TokensOfSuffix(t, s, b.end);
      LexemesCons(a, TokensFrom(t, a.end));
      LexemesCons(b, TokensFrom(u, b.end));
    }
  }

  lemma LexemesCons(tok: Token, toks: seq<Token>)
    ensures Lexemes([tok] + toks) == [LexemeOf(tok)] + Lexemes(toks)
  {
  }

  /** The first lexeme of a document, and the rest of it. */
  lemma LexStep(t: Bytes)
    ensures var tok := ReadToken(t, 0);
            Lex(t) == if tok.start == |t| then [] else [LexemeOf(tok)] + Lex(t[tok.end..])
  {
    hide ReadToken;
    var tok := ReadToken(t, 0);
    if tok.start < |t| {
      TokensOfSuffix(t, tok.end, 0);
      LexemesCons(tok, TokensFrom(t, tok.end));
    }
  }

  lemma LexIsLexemes(t: Bytes)
    ensures Lex(t) == Lexemes(TokensFrom(t, 0))
  {
  }

  /** A space in front changes nothing. */
  lemma LexSpace(c: byte, post: Bytes)
    requires IsSpace(c)
    ensures Lex([c] + post) == Lex(post)
  {
    hide TokenAt;
    var t := [c] + post;
    assert t[1..] == post;
    TokensOfSuffix(t, 1, 0);
    assert SkipSpaces(t, 0) == SkipSpaces(t, 1);
    assert ReadToken(t, 0) == ReadToken(t, 1);
    assert TokensFrom(t, 0) == TokensFrom(t, 1);
  }

  /** A token at the very front, given that the scanner stops at its end. */
  lemma LexFront(x: Bytes, kind: Kind, post: Bytes)
    requires x != [] && !IsSpace(x[0]) && TokenAt(x + post, 0) == Shape(kind, |x|)
    ensures Lex(x + post) == [Lexeme(kind, x)] + Lex(post)
  {
    hide TokenAt;
    var t := x + post;
    LexStep(t);
    assert SkipSpaces(t, 0) == 0;
    assert t[0..|x|] == x && t[|x|..] == post;
  }

  lemma LexPunctuation(c: byte, post: Bytes)
    requires Punctuation(c) != ErrorToken && c != NUL
    ensures Lex([c] + post) == [Lexeme(Punctuation(c), [c])] + Lex(post)
  {
    LexFront([c], Punctuation(c), post);
  }

  // ---------------------------------------------------------------- comments

  /** `body` does not close a comment. */
  predicate NoClose(body: Bytes) {
    forall k | 0 <= k < |body| - 1 :: !(body[k] == 0x2A && body[k + 1] == 0x2F)
  }

  lemma {:induction false} ScansBody(t: Bytes, i: nat, body: Bytes, end: Bytes)
    requires i <= |t| && t[i..] == body + end && NoClose(body)
    requires end == [] || end[0] == 0x2A
    ensures |end| >= 2 && end[1] == 0x2F ==> ScanCComment(t, i) == Scan(true, i + |body| + 2)
    ensures end == [] && (body == [] || body[|body| - 1] != 0x2F) ==> ScanCComment(t, i) == Scan(false, |t|)
    ensures end == [] && body != [] && body[|body| - 1] == 0x2F ==> ScanCComment(t, i) == Scan(true, |t|)
    decreases |body|
  {
    var u := t[i..];
    if |body| > 1 {
      assert u[0] == body[0] && u[1] == body[1];
      assert t[i] == u[0] && t[i + 1] == u[1];
      assert t[i + 1..] == body[1..] + end;
      ScansBody(t, i + 1, body[1..], end);
    } else if |body| == 1 && |end| >= 2 {
      assert u == [body[0]] + end && t[i] == u[0] && t[i + 1] == u[1] && t[i + 2] == u[2];
    } else if |end| >= 2 {
      assert u == end && t[i] == u[0] && t[i + 1] == u[1];
    } else if |body| == 1 && end == [] {
      assert u == body && t[i] == u[0] && |t| == i + 1;
    } else if end == [] {
      assert u == [];
    }
  }

  /** A comment that is opened with a star is one token, up to the first star with a slash after it. */
  lemma BlockComment(body: Bytes, post: Bytes)
    requires NoClose(body)
    ensures var x: Bytes := [0x2F, 0x2A] + body + [0x2A, 0x2F];
            Lex(x + post) == [Lexeme(Comment, x)] + Lex(post)
  {
    hide ScanCComment;
    var x: Bytes := [0x2F, 0x2A] + body + [0x2A, 0x2F];
    var t := x + post;
    assert t[2..] == body + ([0x2A, 0x2F] + post);
    ScansBody(t, 2, body, [0x2A, 0x2F] + post);
    assert t[0] == 0x2F && t[1] == 0x2A;
    LexFront(x, Comment, post);
  }

  /** At the end of the document a slash alone closes it, and without one it is an error. */
  lemma UnclosedComment(body: Bytes)
    requires NoClose(body)
    ensures var x: Bytes := [0x2F, 0x2A] + body;
            Lex(x) == [Lexeme(if body != [] && body[|body| - 1] == 0x2F then Comment else ErrorToken, x)]
  {
    hide ScanCComment;
    var x: Bytes := [0x2F, 0x2A] + body;
    assert x[2..] == body + [];
    ScansBody(x, 2, body, []);
    assert x[0] == 0x2F && x[1] == 0x2A && x + [] == x;
    LexFront(x, if body != [] && body[|body| - 1] == 0x2F then Comment else ErrorToken, []);
    NothingLexed();
  }

  lemma NothingLexed()
    ensures Lex([]) == []
  {
  }

  lemma {:induction false} ScansLine(t: Bytes, i: nat, body: Bytes, end: Bytes)
    requires i <= |t| && t[i..] == body + end && forall k | 0 <= k < |body| :: body[k] != 0x0A && body[k] != 0x0D
    ensures end == [] ==> ScanLineComment(t, i) == |t|
    ensures |end| >= 1 && end[0] == 0x0A ==> ScanLineComment(t, i) == i + |body| + 1
    ensures |end| >= 2 && end[0] == 0x0D && end[1] == 0x0A ==> ScanLineComment(t, i) == i + |body| + 2
    ensures |end| >= 1 && end[0] == 0x0D && (|end| == 1 || end[1] != 0x0A) ==>
              ScanLineComment(t, i) == i + |body| + 1
    decreases |body|
  {
    var u := t[i..];
    if body != [] {
      assert u[0] == body[0] && t[i] == u[0];
      assert t[i + 1..] == body[1..] + end;
      ScansLine(t, i + 1, body[1..], end);
    } else {
      assert u == end;
    }
  }

  /** A comment that is opened with two slashes is one token, up to and including the end of its line. */
  lemma LineComment(body: Bytes, eol: Bytes, post: Bytes)
    requires forall k | 0 <= k < |body| :: body[k] != 0x0A && body[k] != 0x0D
    requires eol == [0x0A] || eol == [0x0D, 0x0A] || (eol == [0x0D] && (post == [] || post[0] != 0x0A))
          || (eol == [] && post == [])
    ensures var x: Bytes := [0x2F, 0x2F] + body + eol;
            Lex(x + post) == [Lexeme(Comment, x)] + Lex(post)
  {
    hide ScanLineComment;
    var x: Bytes := [0x2F, 0x2F] + body + eol;
    var t := x + post;
    assert t[2..] == body + (eol + post);
    ScansLine(t, 2, body, eol + post);
    assert t[0] == 0x2F && t[1] == 0x2F;
    LexFront(x, Comment, post);
  }

  // ---------------------------------------------------------------- slices

  predicate SelfContained(kind: Kind) {
    kind != EndOfStream && kind != Comment && kind != ErrorToken
  }

  /**
   * If some tokens of the document from `s` on end at `k`, and the last of them is a complete
   * token, then the text t[s..k] alone consists of exactly those tokens.
   */
  lemma {:induction false} TokensOfSlice(t: Bytes, s: nat, k: nat, i: nat, n: nat)
    requires s + i <= k <= |t| && 1 <= n <= |TokensFrom(t, s + i)|
    requires TokensFrom(t, s + i)[n - 1].end == k && SelfContained(TokensFrom(t, s + i)[n - 1].kind)
    ensures Lexemes(TokensFrom(t[s..k], i)) == Lexemes(TokensFrom(t, s + i)[..n])
    decreases n
  {
    hide ReadToken, TokensFrom, OnlyErrors, Fragile;
    var u := t[s..k];
    var a, b := ReadToken(t, s + i), ReadToken(u, i);
    ReadTokenOfPart(t, s, k, u, i);
    TokensUnfold(t, s + i);
    TokensUnfold(u, i);
    var more := TokensFrom(t, a.end);
    if n == 1 {
      NothingLeft(u);
      LexemesCons(b, []);
      LexemesCons(a, []);
    } else {
      TokensIncrease(t, a.end, n - 2);
      TokensOfSlice(t, s, k, b.end, n - 1);
      LexemesCons(b, TokensFrom(u, b.end));
      assert TokensFrom(t, s + i)[..n] == [a] + more[..n - 1];
      LexemesCons(a, more[..n - 1]);
    }
  }

  lemma TokensUnfold(t: Bytes, i: nat)
    requires i <= |t|
    ensures var tok := ReadToken(t, i);
            TokensFrom(t, i) == if tok.start == |t| then [] else [tok] + TokensFrom(t, tok.end)
  {
  }

  /** Tokens are non-empty, in order and inside the document. */
  lemma {:induction false} TokensIncrease(t: Bytes, i: nat, j: nat)
    requires i <= |t| && j < |TokensFrom(t, i)|
    ensures i <= TokensFrom(t, i)[j].start < TokensFrom(t, i)[j].end <= |t|
    decreases j
  {
    hide ReadToken;
    if j > 0 {
      TokensIncrease(t, ReadToken(t, i).end, j - 1);
    }
  }

  // ---------------------------------------------------------------- cuts

  /** Tokens that no complete document starts a member with. */
  predicate AllFragile(toks: seq<Token>) {
    forall j | 0 <= j < |toks| :: Fragile(toks[j].kind)
  }

  lemma {:induction false} ErrorsOnly(u: Bytes, i: nat)
    requires i <= |u| && OnlyErrors(u, i)
    ensures AllFragile(TokensFrom(u, i))
    decreases |u| - i
  {
    if i < |u| {
      assert IsLetterInside(u[i]);
      assert SkipSpaces(u, i) == i;
      assert ReadToken(u, i).kind == ErrorToken && ReadToken(u, i).end == i + 1;
      ErrorsOnly(u, i + 1);
    }
  }

  lemma NothingLeft(u: Bytes)
    ensures TokensFrom(u, |u|) == []
  {
  }

  lemma NothingIsFragile()
    ensures AllFragile([])
  {
  }

  lemma OneIsFragile(tok: Token)
    requires Fragile(tok.kind)
    ensures AllFragile([tok] + [])
  {
  }

  lemma FragileCons(tok: Token, toks: seq<Token>)
    requires Fragile(tok.kind) && AllFragile(toks)
    ensures AllFragile([tok] + toks)
  {
  }

  lemma SameStart(tok: Token, x: seq<Token>, y: seq<Token>, n: nat)
    requires n <= |x| && n <= |y| && x[..n] == y[..n]
    ensures ([tok] + x)[..n + 1] == ([tok] + y)[..n + 1] && ([tok] + y)[n + 1..] == y[n..]
  {
  }

  /**
   * Cutting a document at `k` keeps its tokens up to some point; after it come only numbers,
   * comments and errors.
   */
  lemma {:induction false} TokensOfCut(t: Bytes, k: nat, i: nat) returns (n: nat)
    requires i <= k <= |t|
    ensures n <= |TokensFrom(t, i)| && n <= |TokensFrom(t[..k], i)|
    ensures TokensFrom(t[..k], i)[..n] == TokensFrom(t, i)[..n]
    ensures AllFragile(TokensFrom(t[..k], i)[n..])
    decreases k - i
  {
    hide ReadToken, OnlyErrors, TokensFrom, AllFragile;
    var u := t[..k];
    assert u == t[0..k];
    var a, b := ReadToken(t, i), ReadToken(u, i);
    ReadTokenOfPart(t, 0, k, u, i);
    TokensUnfold(t, i);
    TokensUnfold(u, i);
    NothingIsFragile();
    if b.start == |u| {
      n := 0;
    } else if SameToken(a, b, 0) {
      assert a == b;
      n := TokensOfCut(t, k, b.end);
      SameStart(a, TokensFrom(t, a.end), TokensFrom(u, b.end), n);
      n := n + 1;
    } else {
      n := 0;
      if b.end == |u| {
        NothingLeft(u);
        OneIsFragile(b);
      } else {
        ErrorsOnly(u, b.end);
        FragileCons(b, TokensFrom(u, b.end));
      }
    }
  }
}
