/**
 * What Json::Reader computes, as recursive functions over the list of tokens of a document.
 * The class in Reader.dfy, which works on the document with a cursor, is proved equal to this.
 */
module ReaderSpec {
  import opened Bytes
  import opened Wrappers
  import opened StringCodec
  import opened Numbers
  import opened Lexer
  import opened Values

  /**
   * Json::Features, and the two double conversions of the C++ library: what a number token
   * denotes when it is no integer (if anything), and how a double is printed.
   */
  datatype Config = Config(
    allowComments: bool,
    strictRoot: bool,
    allowDroppedNull: bool,
    allowNumericKeys: bool,
    parseDouble: Bytes -> Option<nat>,
    doubleText: nat -> Bytes)

  /** readValue aborts when the node stack is higher than this. */
  const STACK_LIMIT: nat := 1000

  /** `Aborted` is the exceeded stack limit: this build has no exceptions and stops there. */
  datatype Status = Ok | Failed | Aborted

  datatype ErrorKind =
    | ValueExpected
    | MissingColon
    | MissingMemberSeparator
    | MissingMemberName
    | MissingArraySeparator
    | NotANumber
    | BadString(cause: StringError)
    | RootNotContainer

  datatype Error = Error(kind: ErrorKind, token: Token)

  /**
   * The effect of one read: the cursor position and the tokens left (unless aborted), the
   * value as far as it was built, and the errors added.
   */
  datatype Result<T> = Result(status: Status, pos: nat, rest: seq<Token>, val: T, errors: seq<Error>)

  // ---------------------------------------------------------------- token lists

  /** The next token; at the end of the document it is an empty EndOfStream. */
  function Head(toks: seq<Token>, eof: nat): Token {
    if toks == [] then Token(EndOfStream, eof, eof, []) else toks[0]
  }

  function Tail(toks: seq<Token>): (r: seq<Token>)
    ensures |r| <= |toks|
    ensures toks != [] ==> |r| < |toks|
  {
    if toks == [] then [] else toks[1..]
  }

  function DropComments(toks: seq<Token>): (r: seq<Token>)
    ensures |r| <= |toks|
    ensures r != [] ==> r[0].kind != Comment
  {
    if toks != [] && toks[0].kind == Comment then DropComments(toks[1..]) else toks
  }

  /** skipCommentTokens leaves the next token at the head of this list. */
  function SkipCommentTokens(cfg: Config, toks: seq<Token>): (r: seq<Token>)
    ensures |r| <= |toks|
  {
    if cfg.allowComments then DropComments(toks) else toks
  }

  datatype Recovery = Recovery(pos: nat, rest: seq<Token>)

  /** recoverFromError: skips tokens up to and including one of kind `until` or an end of stream. */
  function Recover(toks: seq<Token>, eof: nat, until: Kind): (r: Recovery)
    ensures |r.rest| <= |toks|
  {
    if toks == [] then Recovery(eof, [])
    else if toks[0].kind == until || toks[0].kind == EndOfStream then Recovery(toks[0].end, toks[1..])
    else Recover(toks[1..], eof, until)
  }

  function Fail<T>(eof: nat, toks: seq<Token>, until: Kind, val: T, errors: seq<Error>): (r: Result<T>)
    ensures |r.rest| <= |toks|
  {
    var f := Recover(toks, eof, until);
    Result(Failed, f.pos, f.rest, val, errors)
  }

  // ---------------------------------------------------------------- scalars

  /** decodeNumber: an integer if it fits, otherwise a double if the library can read one. */
  function DecodeScalar(cfg: Config, x: Bytes): Option<Scalar> {
    if x == [] then None
    else
      match DecodeInteger(x, MAX_INT32)
      case Signed(i) => Some(Int(i))
      case Unsigned(u) => Some(UInt(u))
      case NotInteger =>
        match cfg.parseDouble(x)
        case None => None
        case Some(bits) => Some(Real(bits))
  }

  /** decodeString on a string token (which always has both quotes). */
  function DecodeLiteral(x: Bytes): DecodedString {
    if |x| < 2 then Undecodable(EmptyEscape) else DecodeText(x)
  }

  /** Value::asString of a decoded number. */
  function NumberKey(cfg: Config, s: Scalar): Bytes {
    match s
    case Int(i) => IntText(i)
    case UInt(u) => UIntText(u)
    case Real(bits) => cfg.doubleText(bits)
    case _ => []
  }

  /** The name of a member, or the error that its token causes. */
  datatype Name = Name(name: Bytes) | BadName(kind: ErrorKind) | NoName

  function NameOf(cfg: Config, tok: Token): Name {
    if tok.kind == StringToken then
      match DecodeLiteral(tok.text)
      case Decoded(out, _) => Name(out)
      case Undecodable(e) => BadName(BadString(e))
    else if tok.kind == NumberToken && cfg.allowNumericKeys then
      match DecodeScalar(cfg, tok.text)
      case Some(s) => Name(NumberKey(cfg, s))
      case None => BadName(NotANumber)
    else NoName
  }

  /** The scalar a token denotes, or the error it causes. */
  datatype Denoted = Denotes(scalar: Scalar) | Denies(kind: ErrorKind) | NoScalar

  function ScalarOf(cfg: Config, tok: Token): Denoted {
    match tok.kind
    case NumberToken =>
      (match DecodeScalar(cfg, tok.text)
       case Some(s) => Denotes(s)
       case None => Denies(NotANumber))
    case StringToken =>
      (match DecodeLiteral(tok.text)
       case Decoded(out, _) => Denotes(Str(out))
       case Undecodable(e) => Denies(BadString(e)))
    case TrueToken => Denotes(Bool(true))
    case FalseToken => Denotes(Bool(false))
    case NullToken => Denotes(Null)
    case _ => NoScalar
  }

  /** A token without a place. */
  function Bare(l: Lexeme): Token {
    Token(l.kind, 0, 0, l.text)
  }

  predicate IsScalarKind(k: Kind) {
    k == NumberToken || k == StringToken || k == TrueToken || k == FalseToken || k == NullToken
  }

  predicate IsPlaceholder(k: Kind) {
    k == ArraySeparator || k == ObjectEnd || k == ArrayEnd
  }

  // ---------------------------------------------------------------- values

  /** readValue with a node stack of height `depth`, into a value that holds `cur` so far. */
  function ReadValue(cfg: Config, eof: nat, toks: seq<Token>, depth: nat, cur: Node): (r: Result<Node>)
    ensures |r.rest| <= |toks|
    ensures |r.errors| == if r.status == Failed then 1 else 0
    decreases |toks|, 2
  {
    if depth > STACK_LIMIT then Result(Aborted, 0, toks, cur, [])
    else
      var ts := SkipCommentTokens(cfg, toks);
      var tok := Head(ts, eof);
      if tok.kind == ObjectBegin then
        var m := ReadMembers(cfg, eof, Tail(ts), depth, [], []);
        var node := ObjNode(PutAll([], m.val), tok.start, if m.status == Aborted then cur.limit else m.pos);
        Result(m.status, m.pos, m.rest, node, m.errors)
      else if tok.kind == ArrayBegin then
        var a := ReadArray(cfg, eof, Tail(ts), depth);
        var node := ArrNode(a.val, tok.start, if a.status == Aborted then cur.limit else a.pos);
        Result(a.status, a.pos, a.rest, node, a.errors)
      else
        match ScalarOf(cfg, tok)
        case Denotes(s) => Result(Ok, tok.end, Tail(ts), LeafNode(s, tok.start, tok.end), [])
        case Denies(e) => Result(Failed, tok.end, Tail(ts), cur, [Error(e, tok)])
        case NoScalar =>
          if cfg.allowDroppedNull && IsPlaceholder(tok.kind) then
            Result(Ok, tok.start, ts, LeafNode(Null, tok.start - 1, tok.start), [])
          else
            Result(Failed, tok.end, Tail(ts), WithOffsets(cur, tok.start, tok.end), [Error(ValueExpected, tok)])
  }

  /** The value of the member being read: what its key already holds, or null. */
  function Member(acc: seq<Entry<Node>>, name: Bytes): Node {
    Get(PutAll([], acc), name, NULL_NODE)
  }

  /**
   * The member loop of readObject: `acc` are the members read so far in the order of the
   * document, `last` is the name of the latest one.
   */
  function ReadMembers(cfg: Config, eof: nat, toks: seq<Token>, depth: nat, acc: seq<Entry<Node>>, last: Bytes)
    : (r: Result<seq<Entry<Node>>>)
    ensures |r.rest| <= |toks|
    ensures |r.errors| == if r.status == Failed then 1 else 0
    decreases |toks|, 1
  {
    var ts := DropComments(toks);
    var key := Head(ts, eof);
    if key.kind == ObjectEnd && last == [] then Result(Ok, key.end, Tail(ts), acc, [])
    else
      match NameOf(cfg, key)
      case NoName => Fail(eof, Tail(ts), ObjectEnd, acc, [Error(MissingMemberName, key)])
      case BadName(e) => Fail(eof, Tail(ts), ObjectEnd, acc, [Error(e, key)])
      case Name(name) =>
        var colon := Head(Tail(ts), eof);
        if colon.kind != MemberSeparator then
          Fail(eof, Tail(Tail(ts)), ObjectEnd, acc, [Error(MissingColon, colon)])
        else
          var child := ReadValue(cfg, eof, Tail(Tail(ts)), depth + 1, Member(acc, name));
          AfterMember(cfg, eof, |toks|, depth, acc + [Entry(name, child.val)], name, child)
  }

  /** What follows a member: a separator, the closing brace, or an error. */
  function AfterMember(cfg: Config, eof: nat, bound: nat, depth: nat, acc: seq<Entry<Node>>, name: Bytes,
                       child: Result<Node>)
    : (r: Result<seq<Entry<Node>>>)
    requires |child.rest| < bound
    requires |child.errors| == if child.status == Failed then 1 else 0
    ensures |r.rest| < bound
    ensures |r.errors| == if r.status == Failed then 1 else 0
    decreases bound, 0
  {
    if child.status == Aborted then Result(Aborted, 0, child.rest, acc, child.errors)
    else if child.status == Failed then Fail(eof, child.rest, ObjectEnd, acc, child.errors)
    else
      var next := Head(child.rest, eof);
      if next.kind != ObjectEnd && next.kind != ArraySeparator && next.kind != Comment then
        Fail(eof, Tail(child.rest), ObjectEnd, acc, [Error(MissingMemberSeparator, next)])
      else
        var ts := DropComments(child.rest);
        if Head(ts, eof).kind == ObjectEnd then Result(Ok, Head(ts, eof).end, Tail(ts), acc, [])
        else ReadMembers(cfg, eof, Tail(ts), depth, acc, name)
  }

  /** readArray after the opening bracket. */
  function ReadArray(cfg: Config, eof: nat, toks: seq<Token>, depth: nat): (r: Result<seq<Node>>)
    ensures |r.rest| <= |toks|
    ensures |r.errors| == if r.status == Failed then 1 else 0
    decreases |toks|, 4
  {
    if Head(toks, eof).kind == ArrayEnd then Result(Ok, Head(toks, eof).end, Tail(toks), [], [])
    else ReadElements(cfg, eof, toks, depth, [])
  }

  /** The element loop of readArray; `acc` are the elements read so far. */
  function ReadElements(cfg: Config, eof: nat, toks: seq<Token>, depth: nat, acc: seq<Node>)
    : (r: Result<seq<Node>>)
    ensures |r.rest| <= |toks|
    ensures |r.errors| == if r.status == Failed then 1 else 0
    decreases |toks|, 3
  {
    var child := ReadValue(cfg, eof, toks, depth + 1, NULL_NODE);
    var acc' := acc + [child.val];
    if child.status == Aborted then Result(Aborted, 0, child.rest, acc', child.errors)
    else if child.status == Failed then Fail(eof, child.rest, ArrayEnd, acc', child.errors)
    else
      var ts := DropComments(child.rest);
      var next := Head(ts, eof);
      if next.kind == ArrayEnd then Result(Ok, next.end, Tail(ts), acc', [])
      else if next.kind == ArraySeparator then ReadElements(cfg, eof, Tail(ts), depth, acc')
      else Fail(eof, Tail(ts), ArrayEnd, acc', [Error(MissingArraySeparator, next)])
  }

  // ---------------------------------------------------------------- documents

  /** The outcome of parse: true, false or no return at all; the root value; the error list. */
  datatype Parsed = Parsed(status: Status, root: Node, errors: seq<Error>)

  /** Reader::parse of the document `t` into a root that holds `root` before. */
  function Parse(cfg: Config, t: Bytes, root: Node): Parsed {
    var r := ReadValue(cfg, |t|, TokensFrom(t, 0), 1, root);
    if r.status != Aborted && cfg.strictRoot && r.val.LeafNode? then
      Parsed(Failed, r.val, r.errors + [Error(RootNotContainer, Token(ErrorToken, 0, |t|, t))])
    else Parsed(r.status, r.val, r.errors)
  }
}
