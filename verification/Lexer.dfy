/**
 * Tokens of a JSON document, as Reader::readToken finds them. Positions are offsets into the
 * whole document; every scanner returns the offset at which the cursor stops.
 */
module Lexer {
  import opened Bytes
  import opened StringCodec

  datatype Kind =
    | EndOfStream
    | ObjectBegin
    | ObjectEnd
    | ArrayBegin
    | ArrayEnd
    | StringToken
    | NumberToken
    | TrueToken
    | FalseToken
    | NullToken
    | ArraySeparator
    | MemberSeparator
    | Comment
    | ErrorToken

  /** A token: its kind, its range in the document, and the characters of that range. */
  datatype Token = Token(kind: Kind, start: nat, end: nat, text: Bytes)

  function SkipSpaces(t: Bytes, i: nat): (j: nat)
    requires i <= |t|
    ensures i <= j <= |t|
    ensures j < |t| ==> !IsSpace(t[j])
    decreases |t| - i
  {
    if i < |t| && IsSpace(t[i]) then SkipSpaces(t, i + 1) else i
  }

  function SkipDigits(t: Bytes, i: nat): (j: nat)
    requires i <= |t|
    ensures i <= j <= |t|
    ensures j < |t| ==> !IsDigit(t[j])
    decreases |t| - i
  {
    if i < |t| && IsDigit(t[i]) then SkipDigits(t, i + 1) else i
  }

  /** The fractional part of readNumber. */
  function SkipFraction(t: Bytes, i: nat): (j: nat)
    requires i <= |t|
    ensures i <= j <= |t|
  {
    if i < |t| && t[i] == DOT then SkipDigits(t, i + 1) else i
  }

  /** The exponent of readNumber: digits are optional. */
  function SkipExponent(t: Bytes, i: nat): (j: nat)
    requires i <= |t|
    ensures i <= j <= |t|
  {
    if i < |t| && (t[i] == LOWER_E || t[i] == UPPER_E) then
      if i + 1 < |t| && (t[i + 1] == PLUS || t[i + 1] == MINUS) then SkipDigits(t, i + 2)
      else SkipDigits(t, i + 1)
    else i
  }

  /** readNumber from just after the first character. */
  function ScanNumber(t: Bytes, i: nat): (j: nat)
    requires i <= |t|
    ensures i <= j <= |t|
  {
    SkipExponent(t, SkipFraction(t, SkipDigits(t, i)))
  }

  /** match: succeeds and advances, or fails and leaves the cursor. */
  function ScanWord(t: Bytes, i: nat, word: Bytes): (r: Scan)
    requires i <= |t|
    ensures i <= r.end <= |t|
  {
    if i + |word| <= |t| && t[i..i + |word|] == word then Scan(true, i + |word|) else Scan(false, i)
  }

  /** readCStyleComment: a final slash closes the comment even without a star before it. */
  function ScanCComment(t: Bytes, i: nat): (r: Scan)
    requires i <= |t|
    ensures i <= r.end <= |t|
    ensures r.ok ==> i < r.end
    ensures !r.ok ==> r.end == |t|
    decreases |t| - i
  {
    if i + 1 < |t| then
      if t[i] == STAR && t[i + 1] == SLASH then Scan(true, i + 2) else ScanCComment(t, i + 1)
    else if i < |t| then Scan(t[i] == SLASH, i + 1)
    else Scan(false, i)
  }

  /** readCppStyleComment: up to and including the end of line, or the end of the document. */
  function ScanLineComment(t: Bytes, i: nat): (j: nat)
    requires i <= |t|
    ensures i <= j <= |t|
    decreases |t| - i
  {
    if i == |t| then i
    else if t[i] == LF then i + 1
    else if t[i] == CR then if i + 1 < |t| && t[i + 1] == LF then i + 2 else i + 1
    else ScanLineComment(t, i + 1)
  }

  /** readComment from just after the slash. */
  function ScanComment(t: Bytes, i: nat): (r: Scan)
    requires i <= |t|
    ensures i <= r.end <= |t|
  {
    if i == |t| then Scan(false, i)
    else if t[i] == STAR then ScanCComment(t, i + 1)
    else if t[i] == SLASH then Scan(true, ScanLineComment(t, i + 1))
    else Scan(false, i + 1)
  }

  const TRUE_TAIL: Bytes := [LOWER_R, LOWER_U, LOWER_E]
  const FALSE_TAIL: Bytes := [LOWER_A, 0x6C, 0x73, LOWER_E]
  const NULL_TAIL: Bytes := [LOWER_U, 0x6C, 0x6C]

  /** The kind of the tokens that are one character long. */
  function Punctuation(c: byte): Kind {
    if c == LBRACE then ObjectBegin
    else if c == RBRACE then ObjectEnd
    else if c == LBRACKET then ArrayBegin
    else if c == RBRACKET then ArrayEnd
    else if c == COMMA then ArraySeparator
    else if c == COLON then MemberSeparator
    else if c == NUL then EndOfStream
    else ErrorToken
  }

  datatype Shape = Shape(kind: Kind, end: nat)

  function Finish(kind: Kind, r: Scan): Shape {
    Shape(if r.ok then kind else ErrorToken, r.end)
  }

  /** Kind and end of the token whose first character is at `s`. */
  function TokenAt(t: Bytes, s: nat): (r: Shape)
    requires s < |t|
    ensures s < r.end <= |t|
    ensures r.kind == StringToken ==> s + 2 <= r.end
    ensures r.kind == ArraySeparator || r.kind == ObjectEnd || r.kind == ArrayEnd ==> r.end == s + 1
  {
    var c := t[s];
    if c == QUOTE then Finish(StringToken, ScanString(t, s + 1))
    else if c == SLASH then Finish(Comment, ScanComment(t, s + 1))
    else if IsDigit(c) || c == MINUS then Shape(NumberToken, ScanNumber(t, s + 1))
    else if c == LOWER_T then Finish(TrueToken, ScanWord(t, s + 1, TRUE_TAIL))
    else if c == LOWER_F then Finish(FalseToken, ScanWord(t, s + 1, FALSE_TAIL))
    else if c == LOWER_N then Finish(NullToken, ScanWord(t, s + 1, NULL_TAIL))
    else Shape(Punctuation(c), s + 1)
  }

  /** readToken: the token that starts after the spaces at `i`; it succeeds unless the kind is ErrorToken. */
  function ReadToken(t: Bytes, i: nat): (tok: Token)
    requires i <= |t|
    ensures i <= tok.start <= tok.end <= |t|
    ensures tok.text == t[tok.start..tok.end]
    ensures tok.start == tok.end ==> tok.start == |t| && tok.kind == EndOfStream
    ensures tok.kind == StringToken ==> tok.start + 2 <= tok.end
    ensures tok.kind == ArraySeparator || tok.kind == ObjectEnd || tok.kind == ArrayEnd ==> tok.end == tok.start + 1
  {
    var s := SkipSpaces(t, i);
    if s == |t| then Token(EndOfStream, s, s, [])
    else Token(TokenAt(t, s).kind, s, TokenAt(t, s).end, t[s..TokenAt(t, s).end])
  }

  /** Every token from `i` to the end of the document. */
  function TokensFrom(t: Bytes, i: nat): (r: seq<Token>)
    requires i <= |t|
    decreases |t| - i
  {
    var tok := ReadToken(t, i);
    if tok.start == |t| then [] else [tok] + TokensFrom(t, tok.end)
  }

  /** What is left of a token when its position is forgotten. */
  datatype Lexeme = Lexeme(kind: Kind, text: Bytes)

  /** The lexeme of a token that is one character long. */
  function Mark(c: byte): Lexeme {
    Lexeme(Punctuation(c), [c])
  }

  /** What stands before item number `i` of a list. */
  function Separator(i: nat): seq<Lexeme> {
    if i > 0 then [Mark(COMMA)] else []
  }

  function LexemeOf(tok: Token): Lexeme {
    Lexeme(tok.kind, tok.text)
  }

  function Lexemes(toks: seq<Token>): (r: seq<Lexeme>)
    ensures |r| == |toks|
    ensures forall k | 0 <= k < |r| :: r[k] == LexemeOf(toks[k])
  {
    seq(|toks|, k requires 0 <= k < |toks| => LexemeOf(toks[k]))
  }

  /** The lexemes of a whole document. */
  function Lex(t: Bytes): seq<Lexeme> {
    Lexemes(TokensFrom(t, 0))
  }
}
