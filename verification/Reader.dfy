/**
 * Json::Reader as it runs: a document, a cursor, a stack of values under construction and an
 * error list. Every method is proved equal to its function in Lexer or ReaderSpec.
 *
 * The source keeps pointers to the values on its stack, each inside the one below it; here a
 * value is taken out of its parent while it is on the stack and put back when it is popped.
 * `Aborted` is returned at once by every method, as nothing runs after the abort.
 */
module ReaderClass {
  import opened Bytes
  import opened Wrappers
  import opened StringCodec
  import opened Numbers
  import L = Lexer
  import opened Values
  import S = ReaderSpec
  import T = ReaderTheorems

  /** Reading a token takes it from the head of the token list. */
  lemma TokenStep(t: Bytes, i: nat)
    requires i <= |t|
    ensures var tok := L.ReadToken(t, i);
            && tok == S.Head(L.TokensFrom(t, i), |t|)
            && L.TokensFrom(t, tok.end) == S.Tail(L.TokensFrom(t, i))
  {
    hide L.TokenAt;
    var tok := L.ReadToken(t, i);
    if tok.start == |t| {
      assert L.SkipSpaces(t, |t|) == |t|;
    }
  }

  /** Spaces before a token do not matter. */
  lemma SpacesDoNotMatter(t: Bytes, i: nat)
    requires i <= |t|
    ensures L.ReadToken(t, L.SkipSpaces(t, i)) == L.ReadToken(t, i)
    ensures L.TokensFrom(t, L.SkipSpaces(t, i)) == L.TokensFrom(t, i)
  {
    hide L.TokenAt;
    var s := L.SkipSpaces(t, i);
    assert L.SkipSpaces(t, s) == s;
  }

  lemma FromItsStart(t: Bytes, i: nat)
    requires i <= |t|
    ensures var tok := L.ReadToken(t, i);
            L.ReadToken(t, tok.start) == tok && L.TokensFrom(t, tok.start) == L.TokensFrom(t, i)
  {
    SpacesDoNotMatter(t, i);
  }

  lemma PeekArrayEnd(t: Bytes, i: nat)
    requires i <= |t| && (i < |t| ==> !IsSpace(t[i]))
    ensures S.Head(L.TokensFrom(t, i), |t|).kind == L.ArrayEnd <==> i < |t| && t[i] == RBRACKET
  {
    TokenStep(t, i);
    assert L.SkipSpaces(t, i) == i;
  }

  lemma PutNone<V>()
    ensures PutAll<V>([], []) == []
  {
  }

  lemma PutOne<V>(es: seq<Entry<V>>, e: Entry<V>)
    ensures PutAll([], es + [e]) == Put(PutAll([], es), e.key, e.val)
  {
    assert (es + [e])[..|es|] == es;
  }

  /** One turn of the member loop up to the colon. */
  lemma MemberStep(cfg: S.Config, eof: nat, toks: seq<L.Token>, depth: nat, acc: seq<Entry<Node>>, last: Bytes)
    ensures var ts := S.DropComments(toks);
            var key, colon := S.Head(ts, eof), S.Head(S.Tail(ts), eof);
            var r := S.ReadMembers(cfg, eof, toks, depth, acc, last);
            if key.kind == L.ObjectEnd && last == [] then r == S.Result(S.Ok, key.end, S.Tail(ts), acc, [])
            else
              match S.NameOf(cfg, key)
              case NoName => r == S.Fail(eof, S.Tail(ts), L.ObjectEnd, acc, [S.Error(S.MissingMemberName, key)])
              case BadName(e) => r == S.Fail(eof, S.Tail(ts), L.ObjectEnd, acc, [S.Error(e, key)])
              case Name(name) =>
                if colon.kind != L.MemberSeparator then
                  r == S.Fail(eof, S.Tail(S.Tail(ts)), L.ObjectEnd, acc, [S.Error(S.MissingColon, colon)])
                else
                  var child := S.ReadValue(cfg, eof, S.Tail(S.Tail(ts)), depth + 1, S.Member(acc, name));
                  |child.rest| < |toks| &&
                  r == S.AfterMember(cfg, eof, |toks|, depth, acc + [Entry(name, child.val)], name, child)
  {
    hide S.ReadValue, S.AfterMember, S.Fail, PutAll, S.DecodeScalar, S.DecodeLiteral;
  }

  /** What readValue does with a token that opens a container. */
  lemma ContainerStep(cfg: S.Config, eof: nat, toks: seq<L.Token>, depth: nat, cur: Node)
    requires depth <= S.STACK_LIMIT
    ensures var ts := S.SkipCommentTokens(cfg, toks);
            var tok := S.Head(ts, eof);
            var m := S.ReadMembers(cfg, eof, S.Tail(ts), depth, [], []);
            var a := S.ReadArray(cfg, eof, S.Tail(ts), depth);
            && (tok.kind == L.ObjectBegin ==>
                  S.ReadValue(cfg, eof, toks, depth, cur) ==
                  S.Result(m.status, m.pos, m.rest,
                           ObjNode(PutAll([], m.val), tok.start, if m.status == S.Aborted then cur.limit else m.pos),
                           m.errors))
            && (tok.kind == L.ArrayBegin ==>
                  S.ReadValue(cfg, eof, toks, depth, cur) ==
                  S.Result(a.status, a.pos, a.rest,
                           ArrNode(a.val, tok.start, if a.status == S.Aborted then cur.limit else a.pos), a.errors))
  {
    hide S.ReadMembers, S.ReadArray, PutAll, S.SkipCommentTokens, S.ScalarOf;
  }

  lemma TooDeep(cfg: S.Config, eof: nat, toks: seq<L.Token>, depth: nat, cur: Node)
    requires depth > S.STACK_LIMIT
    ensures S.ReadValue(cfg, eof, toks, depth, cur) == S.Result(S.Aborted, 0, toks, cur, [])
  {
    hide S.ReadMembers, S.ReadArray, PutAll, S.SkipCommentTokens, S.ScalarOf;
  }

  /** What readValue does with a token that opens no container. */
  lemma ScalarStep(cfg: S.Config, eof: nat, toks: seq<L.Token>, depth: nat, cur: Node)
    requires depth <= S.STACK_LIMIT
    requires var tok := S.Head(S.SkipCommentTokens(cfg, toks), eof);
             tok.kind != L.ObjectBegin && tok.kind != L.ArrayBegin
    ensures var ts := S.SkipCommentTokens(cfg, toks);
            var tok := S.Head(ts, eof);
            S.ReadValue(cfg, eof, toks, depth, cur) ==
            match S.ScalarOf(cfg, tok)
            case Denotes(s) => S.Result(S.Ok, tok.end, S.Tail(ts), LeafNode(s, tok.start, tok.end), [])
            case Denies(e) => S.Result(S.Failed, tok.end, S.Tail(ts), cur, [S.Error(e, tok)])
            case NoScalar =>
              if cfg.allowDroppedNull && S.IsPlaceholder(tok.kind) then
                S.Result(S.Ok, tok.start, ts, LeafNode(Null, tok.start - 1, tok.start), [])
              else
                S.Result(S.Failed, tok.end, S.Tail(ts), WithOffsets(cur, tok.start, tok.end),
                         [S.Error(S.ValueExpected, tok)])
  {
    hide S.ReadMembers, S.ReadArray, PutAll, S.SkipCommentTokens, S.ScalarOf;
  }

  class Reader {
    const text: Bytes
    const cfg: S.Config
    var current: nat
    var nodes: seq<Node>
    var errors: seq<S.Error>

    constructor (text: Bytes, cfg: S.Config)
      ensures this.text == text && this.cfg == cfg && current == 0
    {
      this.text := text;
      this.cfg := cfg;
      current := 0;
      nodes := [];
      errors := [];
    }

    /** The tokens that are still to be read. */
    ghost function Rest(): seq<L.Token>
      reads this
      requires current <= |text|
    {
      L.TokensFrom(text, current)
    }

    // -------------------------------------------------------------- characters

    method GetNextChar() returns (c: byte)
      requires current <= |text|
      modifies `current
      ensures if old(current) == |text| then c == NUL && current == old(current)
              else c == text[old(current)] && current == old(current) + 1
    {
      if current == |text| {
        return NUL;
      }
      c := text[current];
      current := current + 1;
    }

    method SkipSpaces()
      requires current <= |text|
      modifies `current
      ensures current == L.SkipSpaces(text, old(current))
    {
      while current != |text|
        invariant old(current) <= current <= |text|
        invariant L.SkipSpaces(text, current) == L.SkipSpaces(text, old(current))
        decreases |text| - current
      {
        var c := text[current];
        if c == SPACE || c == TAB || c == CR || c == LF {
          current := current + 1;
        } else {
          break;
        }
      }
    }

    /** match: compares from the last character to the first. */
    method Match(pattern: Bytes) returns (ok: bool)
      requires current <= |text|
      modifies `current
      ensures Scan(ok, current) == L.ScanWord(text, old(current), pattern)
    {
      if |text| - current < |pattern| {
        return false;
      }
      var index := |pattern|;
      while index > 0
        invariant 0 <= index <= |pattern|
        invariant forall k | index <= k < |pattern| :: text[current + k] == pattern[k]
      {
        index := index - 1;
        if text[current + index] != pattern[index] {
          assert text[current..current + |pattern|][index] != pattern[index];
          return false;
        }
      }
      assert text[current..current + |pattern|] == pattern;
      current := current + |pattern|;
      ok := true;
    }

    method ReadCStyleComment() returns (ok: bool)
      requires current <= |text|
      modifies `current
      ensures Scan(ok, current) == L.ScanCComment(text, old(current))
    {
      while current + 1 < |text|
        invariant old(current) <= current <= |text|
        invariant L.ScanCComment(text, current) == L.ScanCComment(text, old(current))
      {
        var c := GetNextChar();
        if c == STAR && text[current] == SLASH {
          c := GetNextChar();
          return c == SLASH;
        }
      }
      var c := GetNextChar();
      ok := c == SLASH;
    }

    method ReadCppStyleComment() returns (ok: bool)
      requires current <= |text|
      modifies `current
      ensures ok && current == L.ScanLineComment(text, old(current))
    {
      while current != |text|
        invariant old(current) <= current <= |text|
        invariant L.ScanLineComment(text, current) == L.ScanLineComment(text, old(current))
        decreases |text| - current
      {
        var c := GetNextChar();
        if c == LF {
          return true;
        }
        if c == CR {
          if current != |text| && text[current] == LF {
            c := GetNextChar();
          }
          return true;
        }
      }
      ok := true;
    }

    method ReadComment() returns (ok: bool)
      requires current <= |text|
      modifies `current
      ensures Scan(ok, current) == L.ScanComment(text, old(current))
    {
      var c := GetNextChar();
      ok := false;
      if c == STAR {
        ok := ReadCStyleComment();
      } else if c == SLASH {
        ok := ReadCppStyleComment();
      }
    }

    /** The digits of a number from the cursor on: the loop shared by the three parts of readNumber. */
    method ReadDigits()
      requires current <= |text|
      modifies `current
      ensures current == L.SkipDigits(text, old(current))
    {
      while current < |text| && ZERO <= text[current] <= NINE
        invariant old(current) <= current <= |text|
        invariant L.SkipDigits(text, current) == L.SkipDigits(text, old(current))
      {
        current := current + 1;
      }
    }

    method ReadNumber()
      requires current <= |text|
      modifies `current
      ensures current == L.ScanNumber(text, old(current))
    {
      ReadDigits();
      if current < |text| && text[current] == DOT {
        current := current + 1;
        ReadDigits();
      }
      if current < |text| && (text[current] == LOWER_E || text[current] == UPPER_E) {
        current := current + 1;
        if current < |text| && (text[current] == PLUS || text[current] == MINUS) {
          current := current + 1;
        }
        ReadDigits();
      }
    }

    method ReadString() returns (ok: bool)
      requires current <= |text|
      modifies `current
      ensures Scan(ok, current) == ScanString(text, old(current))
    {
      var c := NUL;
      while current != |text|
        invariant old(current) <= current <= |text|
        invariant c != QUOTE
        invariant ScanString(text, current) == ScanString(text, old(current))
        decreases |text| - current
      {
        c := GetNextChar();
        if c == BACKSLASH {
          var skipped := GetNextChar();
        } else if c == QUOTE {
          break;
        }
      }
      ok := c == QUOTE;
    }

    // -------------------------------------------------------------- tokens

    method ReadToken() returns (tok: L.Token)
      requires current <= |text|
      modifies `current
      ensures tok == L.ReadToken(text, old(current)) && current == tok.end
      ensures tok == S.Head(old(Rest()), |text|) && Rest() == S.Tail(old(Rest()))
    {
      hide L.TokensFrom, L.SkipSpaces, L.ScanNumber, L.ScanComment, L.ScanWord, ScanString;
      TokenStep(text, current);
      SkipSpaces();
      var start := current;
      var c := GetNextChar();
      var ok, kind := true, L.ErrorToken;
      if c == LBRACE {
        kind := L.ObjectBegin;
      } else if c == RBRACE {
        kind := L.ObjectEnd;
      } else if c == LBRACKET {
        kind := L.ArrayBegin;
      } else if c == RBRACKET {
        kind := L.ArrayEnd;
      } else if c == QUOTE {
        kind := L.StringToken;
        ok := ReadString();
      } else if c == SLASH {
        kind := L.Comment;
        ok := ReadComment();
      } else if ZERO <= c <= NINE || c == MINUS {
        kind := L.NumberToken;
        ReadNumber();
      } else if c == LOWER_T {
        kind := L.TrueToken;
        ok := Match(L.TRUE_TAIL);
      } else if c == LOWER_F {
        kind := L.FalseToken;
        ok := Match(L.FALSE_TAIL);
      } else if c == LOWER_N {
        kind := L.NullToken;
        ok := Match(L.NULL_TAIL);
      } else if c == COMMA {
        kind := L.ArraySeparator;
      } else if c == COLON {
        kind := L.MemberSeparator;
      } else if c == NUL {
        kind := L.EndOfStream;
      } else {
        ok := false;
      }
      if !ok {
        kind := L.ErrorToken;
      }
      tok := L.Token(kind, start, current, text[start..current]);
    }

    method SkipCommentTokens() returns (tok: L.Token)
      requires current <= |text|
      modifies `current
      ensures current == tok.end && old(current) <= tok.start <= tok.end <= |text|
      ensures tok == L.ReadToken(text, tok.start)
              && L.TokensFrom(text, tok.start) == S.SkipCommentTokens(cfg, old(Rest()))
      ensures tok == S.Head(S.SkipCommentTokens(cfg, old(Rest())), |text|)
      ensures Rest() == S.Tail(S.SkipCommentTokens(cfg, old(Rest())))
    {
      hide L.TokensFrom, L.ReadToken;
      ghost var before := current;
      tok := ReadToken();
      FromItsStart(text, before);
      if cfg.allowComments {
        while tok.kind == L.Comment
          invariant old(current) <= before <= tok.start <= tok.end == current <= |text|
          invariant tok == L.ReadToken(text, before)
          invariant S.DropComments(L.TokensFrom(text, before)) == S.DropComments(old(Rest()))
          decreases |text| - current, if tok.kind == L.Comment then 1 else 0
        {
          TokenStep(text, before);
          before := current;
          tok := ReadToken();
        }
        FromItsStart(text, before);
        TokenStep(text, before);
      }
    }

    /** The comment-skipping loops of readObject and readArray, which do not look at the features. */
    method SkipComments(first: L.Token, ghost before: nat) returns (tok: L.Token)
      requires before <= |text| && first == L.ReadToken(text, before) && current == first.end
      modifies `current
      ensures tok == S.Head(S.DropComments(L.TokensFrom(text, before)), |text|)
      ensures current == tok.end && before <= tok.start <= tok.end <= |text|
      ensures tok.text == text[tok.start..tok.end]
      ensures tok.kind == L.StringToken ==> tok.start + 2 <= tok.end
      ensures tok.start == tok.end ==> tok.kind == L.EndOfStream
      ensures Rest() == S.Tail(S.DropComments(L.TokensFrom(text, before)))
    {
      hide L.TokensFrom, L.ReadToken;
      tok := first;
      ghost var at := before;
      while tok.kind == L.Comment
        invariant before <= at <= tok.start <= tok.end == current <= |text|
        invariant tok == L.ReadToken(text, at)
        invariant S.DropComments(L.TokensFrom(text, at)) == S.DropComments(L.TokensFrom(text, before))
        decreases |text| - current, if tok.kind == L.Comment then 1 else 0
      {
        TokenStep(text, at);
        at := current;
        tok := ReadToken();
      }
      TokenStep(text, at);
    }

    method RecoverFromError(skipUntil: L.Kind)
      requires current <= |text|
      modifies `current, `errors
      ensures errors == old(errors) && old(current) <= current <= |text|
      ensures S.Recovery(current, Rest()) == S.Recover(old(Rest()), |text|, skipUntil)
    {
      hide L.TokensFrom, L.ReadToken;
      var errorCount := |errors|;
      while true
        invariant old(current) <= current <= |text| && errors == old(errors)
        invariant S.Recover(Rest(), |text|, skipUntil) == S.Recover(old(Rest()), |text|, skipUntil)
        decreases |text| - current
      {
        var skip := ReadToken();
        if skip.kind == L.ErrorToken {
          errors := errors[..errorCount];
        }
        if skip.kind == skipUntil || skip.kind == L.EndOfStream {
          break;
        }
      }
      errors := errors[..errorCount];
    }

    // -------------------------------------------------------------- scalars

    method AddError(kind: S.ErrorKind, tok: L.Token)
      modifies `errors
      ensures errors == old(errors) + [S.Error(kind, tok)]
    {
      errors := errors + [S.Error(kind, tok)];
    }

    /** decodeNumber(token, decoded), falling back on the double conversion. */
    method DecodeNumberToken(tok: L.Token) returns (r: Option<Scalar>)
      requires tok.start < tok.end <= |text| && tok.text == text[tok.start..tok.end]
      modifies `errors
      ensures r == S.DecodeScalar(cfg, tok.text)
      ensures errors == old(errors) + if r.None? then [S.Error(S.NotANumber, tok)] else []
    {
      var d := DecodeNumber(text, tok.start, tok.end);
      match d
      case Signed(i) => r := Some(Int(i));
      case Unsigned(u) => r := Some(UInt(u));
      case NotInteger =>
        var bits := cfg.parseDouble(text[tok.start..tok.end]);
        if bits.None? {
          AddError(S.NotANumber, tok);
          return None;
        }
        r := Some(Real(bits.value));
    }

    /** decodeString(token, decoded). */
    method DecodeStringToken(tok: L.Token) returns (d: DecodedString)
      requires tok.start + 2 <= tok.end <= |text| && tok.text == text[tok.start..tok.end]
      modifies `errors
      ensures d == S.DecodeLiteral(tok.text)
      ensures errors == old(errors) + if d.Undecodable? then [S.Error(S.BadString(d.error), tok)] else []
    {
      d := DecodeString(text, tok.start, tok.end);
      if d.Undecodable? {
        AddError(S.BadString(d.error), tok);
      }
    }

    /** The name that a member token denotes, as the three branches of readObject find it. */
    method ReadName(tok: L.Token) returns (r: S.Name)
      requires tok.start <= tok.end <= |text| && tok.text == text[tok.start..tok.end]
      requires tok.kind == L.StringToken ==> tok.start + 2 <= tok.end
      requires tok.start == tok.end ==> tok.kind == L.EndOfStream
      modifies `errors
      ensures r == S.NameOf(cfg, tok)
      ensures errors == old(errors) + if r.BadName? then [S.Error(r.kind, tok)] else []
    {
      if tok.kind == L.StringToken {
        var d := DecodeStringToken(tok);
        r := if d.Decoded? then S.Name(d.out) else S.BadName(S.BadString(d.error));
      } else if tok.kind == L.NumberToken && cfg.allowNumericKeys {
        var n := DecodeNumberToken(tok);
        r := if n.Some? then S.Name(S.NumberKey(cfg, n.value)) else S.BadName(S.NotANumber);
      } else {
        r := S.NoName;
      }
    }

    // -------------------------------------------------------------- the value on top of the stack

    ghost function Below(): seq<Node>
      reads this
      requires nodes != []
    {
      nodes[..|nodes| - 1]
    }

    function CurrentValue(): Node
      reads this
      requires nodes != []
    {
      nodes[|nodes| - 1]
    }

    method SetCurrentValue(n: Node)
      requires nodes != []
      modifies `nodes
      ensures nodes == old(Below()) + [n]
    {
      nodes := nodes[..|nodes| - 1] + [n];
    }

    // -------------------------------------------------------------- values

    method ReadValue() returns (status: S.Status)
      requires nodes != [] && current <= |text|
      modifies this
      ensures var r := S.ReadValue(cfg, |text|, old(Rest()), |old(nodes)|, old(CurrentValue()));
              && status == r.status
              && nodes == old(Below()) + [r.val]
              && errors == old(errors) + r.errors
              && old(current) <= current <= |text|
              && (status != S.Aborted ==> current == r.pos && Rest() == r.rest)
      decreases |text| - current, 2
    {
      hide S.ReadValue, S.ReadMembers, S.ReadArray, PutAll, S.SkipCommentTokens, L.ReadToken, L.TokensFrom;
      if |nodes| > S.STACK_LIMIT {
        TooDeep(cfg, |text|, Rest(), |nodes|, CurrentValue());
        return S.Aborted;
      }
      ghost var toks := Rest();
      ContainerStep(cfg, |text|, toks, |nodes|, CurrentValue());
      var token := SkipCommentTokens();
      if token.kind == L.ObjectBegin {
        status := ReadObject(token);
        if status != S.Aborted {
          SetCurrentValue(WithOffsets(CurrentValue(), CurrentValue().start, current));
        }
      } else if token.kind == L.ArrayBegin {
        status := ReadArray(token);
        if status != S.Aborted {
          SetCurrentValue(WithOffsets(CurrentValue(), CurrentValue().start, current));
        }
      } else {
        status := ReadScalar(token, toks);
      }
    }

    /** The branches of readValue for scalars, dropped nulls and errors. */
    method ReadScalar(token: L.Token, ghost toks: seq<L.Token>) returns (status: S.Status)
      requires nodes != [] && current == token.end && token.start <= token.end <= |text|
      requires |nodes| <= S.STACK_LIMIT
      requires token == L.ReadToken(text, token.start) && token.text == text[token.start..token.end]
      requires L.TokensFrom(text, token.start) == S.SkipCommentTokens(cfg, toks)
      requires token == S.Head(S.SkipCommentTokens(cfg, toks), |text|)
      requires Rest() == S.Tail(S.SkipCommentTokens(cfg, toks))
      requires token.kind != L.ObjectBegin && token.kind != L.ArrayBegin
      modifies this
      ensures var r := S.ReadValue(cfg, |text|, toks, |old(nodes)|, old(CurrentValue()));
              && status == r.status
              && nodes == old(Below()) + [r.val]
              && errors == old(errors) + r.errors
              && token.start <= current <= |text|
              && (status != S.Aborted ==> current == r.pos && Rest() == r.rest)
      decreases 0
    {
      hide S.ReadValue, S.SkipCommentTokens, L.ReadToken, L.TokensFrom, S.DecodeScalar, S.DecodeLiteral;
      ScalarStep(cfg, |text|, toks, |nodes|, CurrentValue());
      status := S.Ok;
      if token.kind == L.NumberToken {
        var n := DecodeNumberToken(token);
        if n.None? {
          return S.Failed;
        }
        SetCurrentValue(LeafNode(n.value, token.start, token.end));
      } else if token.kind == L.StringToken {
        var d := DecodeStringToken(token);
        if d.Undecodable? {
          return S.Failed;
        }
        SetCurrentValue(LeafNode(Str(d.out), token.start, token.end));
      } else if token.kind == L.TrueToken {
        SetCurrentValue(LeafNode(Bool(true), token.start, token.end));
      } else if token.kind == L.FalseToken {
        SetCurrentValue(LeafNode(Bool(false), token.start, token.end));
      } else if token.kind == L.NullToken {
        SetCurrentValue(LeafNode(Null, token.start, token.end));
      } else if cfg.allowDroppedNull && S.IsPlaceholder(token.kind) {
        current := current - 1;
        SetCurrentValue(LeafNode(Null, current - 1, current));
      } else {
        SetCurrentValue(WithOffsets(CurrentValue(), token.start, token.end));
        AddError(S.ValueExpected, token);
        status := S.Failed;
      }
    }

    /** readArray: the element list grows by one for every value read. */
    method ReadArray(token: L.Token) returns (status: S.Status)
      requires nodes != [] && current <= |text|
      modifies this
      ensures var r := S.ReadArray(cfg, |text|, old(Rest()), |old(nodes)|);
              && status == r.status
              && nodes == old(Below()) + [ArrNode(r.val, token.start, old(CurrentValue()).limit)]
              && errors == old(errors) + r.errors
              && old(current) <= current <= |text|
              && (status != S.Aborted ==> current == r.pos && Rest() == r.rest)
      decreases |text| - current, 5
    {
      hide S.ReadElements, L.ReadToken, L.TokensFrom;
      ghost var limit, below, toks := CurrentValue().limit, Below(), Rest();
      SetCurrentValue(ArrNode([], token.start, CurrentValue().limit));
      SpacesDoNotMatter(text, current);
      PeekArrayEnd(text, L.SkipSpaces(text, current));
      SkipSpaces();
      if current != |text| && text[current] == RBRACKET {
        var endArray := ReadToken();
        return S.Ok;
      }
      status := ReadElements();
    }

    /** One element: the new entry is read while it is on the stack. */
    method ReadElement() returns (status: S.Status)
      requires nodes != [] && current <= |text| && CurrentValue().ArrNode?
      modifies this
      ensures var r := S.ReadValue(cfg, |text|, old(Rest()), |old(nodes)| + 1, NULL_NODE);
              && status == r.status
              && nodes == old(Below()) + [old(CurrentValue()).(elems := old(CurrentValue()).elems + [r.val])]
              && errors == old(errors) + r.errors
              && old(current) <= current <= |text|
              && (status != S.Aborted ==> current == r.pos && Rest() == r.rest)
      decreases |text| - current, 3
    {
      hide L.ReadToken, L.TokensFrom, S.ReadValue;
      var parent := CurrentValue();
      nodes := nodes + [NULL_NODE];
      status := ReadValue();
      var value := CurrentValue();
      nodes := nodes[..|nodes| - 1];
      SetCurrentValue(parent.(elems := parent.elems + [value]));
    }

    /** The element loop of readArray. */
    method ReadElements() returns (status: S.Status)
      requires nodes != [] && current <= |text| && CurrentValue().ArrNode? && CurrentValue().elems == []
      modifies this
      ensures var r := S.ReadElements(cfg, |text|, old(Rest()), |old(nodes)|, []);
              && status == r.status
              && nodes == old(Below()) + [old(CurrentValue()).(elems := r.val)]
              && errors == old(errors) + r.errors
              && old(current) <= current <= |text|
              && (status != S.Aborted ==> current == r.pos && Rest() == r.rest)
      decreases |text| - current, 4
    {
      hide L.ReadToken, L.TokensFrom, S.ReadValue, S.DropComments, S.Recover, S.ReadElements;
      ghost var below, top, depth, toks := Below(), CurrentValue(), |nodes|, Rest();
      while true
        invariant old(current) <= current <= |text| && errors == old(errors)
        invariant |nodes| == depth && Below() == below
        invariant CurrentValue().ArrNode? && CurrentValue() == top.(elems := CurrentValue().elems)
        invariant S.ReadElements(cfg, |text|, Rest(), depth, CurrentValue().elems) ==
                  S.ReadElements(cfg, |text|, toks, depth, [])
        decreases |text| - current
      {
        T.ElementsRound(cfg, |text|, Rest(), depth, CurrentValue().elems);
        var ok := ReadElement();
        if ok == S.Aborted {
          return S.Aborted;
        }
        if ok == S.Failed {
          RecoverFromError(L.ArrayEnd);
          return S.Failed;
        }
        ghost var before := current;
        var currentToken := ReadToken();
        currentToken := SkipComments(currentToken, before);
        if currentToken.kind != L.ArraySeparator && currentToken.kind != L.ArrayEnd {
          AddError(S.MissingArraySeparator, currentToken);
          RecoverFromError(L.ArrayEnd);
          return S.Failed;
        }
        if currentToken.kind == L.ArrayEnd {
          return S.Ok;
        }
      }
    }

    /** readObject: every member is assigned under its name as soon as its colon is read. */
    method ReadObject(token: L.Token) returns (status: S.Status)
      requires nodes != [] && current <= |text|
      modifies this
      ensures var r := S.ReadMembers(cfg, |text|, old(Rest()), |old(nodes)|, [], []);
              && status == r.status
              && nodes == old(Below()) + [ObjNode(PutAll([], r.val), token.start, old(CurrentValue()).limit)]
              && errors == old(errors) + r.errors
              && old(current) <= current <= |text|
              && (status != S.Aborted ==> current == r.pos && Rest() == r.rest)
      decreases |text| - current, 1
    {
      hide L.ReadToken, L.TokensFrom, S.ReadValue, PutAll, S.NameOf, Put, Get, S.ReadMembers, S.AfterMember,
        S.DropComments;
      ghost var below, limit, depth, toks := Below(), CurrentValue().limit, |nodes|, Rest();
      SetCurrentValue(ObjNode([], token.start, CurrentValue().limit));
      var name: Bytes := [];
      ghost var acc: seq<Entry<Node>> := [];
      PutNone<Node>();
      while true
        invariant old(current) <= current <= |text| && errors == old(errors)
        invariant nodes == below + [ObjNode(PutAll([], acc), token.start, limit)]
        invariant S.ReadMembers(cfg, |text|, Rest(), depth, acc, name)
            == S.ReadMembers(cfg, |text|, toks, depth, [], [])
        decreases |text| - current
      {
        ghost var bound, base := |Rest()|, errors;
        var more: bool;
        status, more, name := BeginMember(name, acc, depth);
        if !more {
          return;
        }
        ghost var child := S.ReadValue(cfg, |text|, Rest(), depth + 1, S.Member(acc, name));
        status, acc := ReadMember(name, acc);
        status, more := FinishMember(name, acc, child, depth, bound, base, status);
        if !more {
          return;
        }
      }
    }

    /** The part of the loop of readObject before a value: the name and the colon. */
    method BeginMember(last: Bytes, ghost acc: seq<Entry<Node>>, ghost depth: nat)
      returns (status: S.Status, more: bool, name: Bytes)
      requires current <= |text|
      modifies `current, `errors
      ensures old(current) <= current <= |text|
      ensures var r := S.ReadMembers(cfg, |text|, old(Rest()), depth, acc, last);
              if more then
                var child := S.ReadValue(cfg, |text|, Rest(), depth + 1, S.Member(acc, name));
                && errors == old(errors) && old(current) < current
                && |child.rest| < |old(Rest())|
                && r == S.AfterMember(cfg, |text|, |old(Rest())|, depth, acc + [Entry(name, child.val)], name, child)
              else
                && status == r.status && acc == r.val && errors == old(errors) + r.errors
                && status != S.Aborted && current == r.pos && Rest() == r.rest
    {
      hide L.ReadToken, L.TokensFrom, S.ReadValue, S.NameOf, S.Member, S.ReadMembers, S.AfterMember, S.DropComments;
      MemberStep(cfg, |text|, Rest(), depth, acc, last);
      ghost var before := current;
      name := [];
      var tokenName := ReadToken();
      tokenName := SkipComments(tokenName, before);
      if tokenName.kind == L.ObjectEnd && last == [] {
        return S.Ok, false, [];
      }
      var n := ReadName(tokenName);
      if n.BadName? {
        RecoverFromError(L.ObjectEnd);
        return S.Failed, false, [];
      }
      if n.NoName? {
        AddError(S.MissingMemberName, tokenName);
        RecoverFromError(L.ObjectEnd);
        return S.Failed, false, [];
      }
      name := n.name;
      var colon := ReadToken();
      if colon.kind != L.MemberSeparator {
        AddError(S.MissingColon, colon);
        RecoverFromError(L.ObjectEnd);
        return S.Failed, false, [];
      }
      return S.Ok, true, name;
    }

    /** What readObject does after a member: it fails, ends, or goes on to the next name. */
    method FinishMember(name: Bytes, ghost acc: seq<Entry<Node>>, ghost child: S.Result<Node>,
                        ghost depth: nat, ghost bound: nat, ghost base: seq<S.Error>, ok: S.Status)
      returns (status: S.Status, more: bool)
      requires current <= |text| && ok == child.status && errors == base + child.errors
      requires ok != S.Aborted ==> current == child.pos && Rest() == child.rest
      requires |child.rest| < bound && |child.errors| == if child.status == S.Failed then 1 else 0
      modifies `current, `errors
      ensures old(current) <= current <= |text|
      ensures var r := S.AfterMember(cfg, |text|, bound, depth, acc, name, child);
              if more then
                && errors == base
                && S.ReadMembers(cfg, |text|, Rest(), depth, acc, name) == r
              else
                && status == r.status && acc == r.val && errors == base + r.errors
                && (status != S.Aborted ==> current == r.pos && Rest() == r.rest)
    {
      hide L.ReadToken, L.TokensFrom, S.ReadMembers, S.DropComments;
      more := false;
      if ok == S.Aborted {
        return S.Aborted, false;
      }
      if ok == S.Failed {
        RecoverFromError(L.ObjectEnd);
        return S.Failed, false;
      }
      ghost var before := current;
      var comma := ReadToken();
      if comma.kind != L.ObjectEnd && comma.kind != L.ArraySeparator && comma.kind != L.Comment {
        AddError(S.MissingMemberSeparator, comma);
        RecoverFromError(L.ObjectEnd);
        return S.Failed, false;
      }
      comma := SkipComments(comma, before);
      if comma.kind == L.ObjectEnd {
        return S.Ok, false;
      }
      return S.Ok, true;
    }

    /** Pushes the member's value, reads into it, and pops it. */
    method ReadMember(name: Bytes, ghost acc: seq<Entry<Node>>) returns (status: S.Status, ghost acc': seq<Entry<Node>>)
      requires nodes != [] && current <= |text|
      requires CurrentValue().ObjNode? && CurrentValue().members == PutAll([], acc)
      modifies this
      ensures var r := S.ReadValue(cfg, |text|, old(Rest()), |old(nodes)| + 1, S.Member(acc, name));
              && status == r.status
              && acc' == acc + [Entry(name, r.val)]
              && nodes == old(Below()) + [old(CurrentValue()).(members := PutAll([], acc'))]
              && errors == old(errors) + r.errors
              && old(current) <= current <= |text|
              && (status != S.Aborted ==> current == r.pos && Rest() == r.rest)
      decreases |text| - current, 3
    {
      hide L.ReadToken, L.TokensFrom, S.ReadValue, PutAll, Put, Get;
      var parent := CurrentValue();
      nodes := nodes + [Get(parent.members, name, NULL_NODE)];
      status := ReadValue();
      var value := CurrentValue();
      nodes := nodes[..|nodes| - 1];
      SetCurrentValue(parent.(members := Put(parent.members, name, value)));
      acc' := acc + [Entry(name, value)];
      PutOne(acc, Entry(name, value));
    }

    // -------------------------------------------------------------- documents

    /** parse: reads one value and ignores what follows it. */
    method Parse(root: Node) returns (status: S.Status, result: Node)
      modifies this
      ensures S.Parsed(status, result, errors) == S.Parse(cfg, text, root)
      ensures status != S.Aborted ==> |nodes| == 1
    {
      hide L.ReadToken, L.TokensFrom, S.ReadValue;
      current := 0;
      errors := [];
      nodes := [root];
      status := ReadValue();
      result := CurrentValue();
      if status == S.Aborted {
        return;
      }
      var token := SkipCommentTokens();
      if cfg.strictRoot {
        if !result.ArrNode? && !result.ObjNode? {
          AddError(S.RootNotContainer, L.Token(L.ErrorToken, 0, |text|, text));
          return S.Failed, result;
        }
      }
    }
  }
}
