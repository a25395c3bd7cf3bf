/** FastWriter's text is lexed into exactly the lexemes of the value. */
module FastTheorems {
  import opened Bytes
  import opened Seqs
  import opened StringCodec
  import opened Lexer
  import opened Values
  import opened FastWriters
  import opened Rendering

  lemma CommaIsClosed(i: nat)
    ensures RendersClosed(CommaText(i), Separator(i))
  {
    hide Lex;
    if i > 0 {
      ClosedMark(COMMA);
    } else {
      ClosedSpaces([]);
    }
  }

  lemma ColonIsClosed(o: Options)
    ensures RendersClosed(ColonText(o), [Mark(COLON)])
  {
    hide Lex;
    ClosedMark(COLON);
    if o.yaml {
      ClosedSpaces([SPACE]);
      ClosedConcat([COLON], [Mark(COLON)], [SPACE], []);
      assert [Mark(COLON)] + [] == [Mark(COLON)] && [COLON] + [SPACE] == [COLON, SPACE];
    }
  }

  /** The compact text of a value renders its lexemes. */
  lemma {:induction false} FastRenders(o: Options, v: Value)
    requires Writable(v) && !o.dropNull
    ensures Renders(FastText(o, v), Spell(v))
    decreases v, 1
  {
    hide Lex, Renders, RendersClosed;
    match v
    case Leaf(s) =>
      RendersScalar(s);
    case Arr(es) =>
      ElementsRender(o, es, 0);
      ClosedMark(LBRACKET);
      ClosedConcat([LBRACKET], [Mark(LBRACKET)], FastElements(o, es, 0) + [RBRACKET],
                   SpellElements(es, 0) + [Mark(RBRACKET)]);
      ClosedIsRendered([LBRACKET] + (FastElements(o, es, 0) + [RBRACKET]),
                       [Mark(LBRACKET)] + (SpellElements(es, 0) + [Mark(RBRACKET)]));
      Reassociate([LBRACKET], FastElements(o, es, 0), [RBRACKET]);
      Reassociate([Mark(LBRACKET)], SpellElements(es, 0), [Mark(RBRACKET)]);
    case Obj(ms) =>
      MembersRender(o, ms, 0);
      ClosedMark(LBRACE);
      ClosedConcat([LBRACE], [Mark(LBRACE)], FastMembers(o, ms, 0) + [RBRACE], SpellMembers(ms, 0) + [Mark(RBRACE)]);
      ClosedIsRendered([LBRACE] + (FastMembers(o, ms, 0) + [RBRACE]),
                       [Mark(LBRACE)] + (SpellMembers(ms, 0) + [Mark(RBRACE)]));
      Reassociate([LBRACE], FastMembers(o, ms, 0), [RBRACE]);
      Reassociate([Mark(LBRACE)], SpellMembers(ms, 0), [Mark(RBRACE)]);
  }

  /** separator, element, rest */
  lemma ElementPiece(sep: Bytes, sl: seq<Lexeme>, e: Bytes, el: seq<Lexeme>, rest: Bytes, rl: seq<Lexeme>)
    requires RendersClosed(sep, sl) && Renders(e, el) && RendersClosed(rest, rl)
    requires rest != [] && EndsNumber(rest)
    ensures RendersClosed(sep + e + rest, sl + el + rl)
  {
    hide Lex, Renders, RendersClosed;
    ThenClosed(e, el, rest, rl);
    ClosedConcat(sep, sl, e + rest, el + rl);
    Reassociate(sep, e, rest);
    Reassociate(sl, el, rl);
  }

  lemma {:induction false} ElementsRender(o: Options, es: seq<Value>, i: nat)
    requires i <= |es| && (forall e | e in es :: Writable(e)) && !o.dropNull
    ensures RendersClosed(FastElements(o, es, i) + [RBRACKET], SpellElements(es, i) + [Mark(RBRACKET)])
    ensures EndsNumber(FastElements(o, es, i) + [RBRACKET]) || i == 0
    decreases es, |es| - i
  {
    hide Lex, Renders, RendersClosed, FastText, Spell, Writable;
    if i == |es| {
      ClosedMark(RBRACKET);
      assert [] + [RBRACKET] == [RBRACKET] && [] + [Mark(RBRACKET)] == [Mark(RBRACKET)];
    } else {
      ElementsRender(o, es, i + 1);
      FastRenders(o, es[i]);
      CommaIsClosed(i);
      var rest, rl := FastElements(o, es, i + 1), SpellElements(es, i + 1);
      ElementPiece(CommaText(i), Separator(i), FastText(o, es[i]), Spell(es[i]), rest + [RBRACKET],
                   rl + [Mark(RBRACKET)]);
      Reassociate(CommaText(i) + FastText(o, es[i]), rest, [RBRACKET]);
      Reassociate(Separator(i) + Spell(es[i]), rl, [Mark(RBRACKET)]);
    }
  }

  lemma {:induction false} MembersRender(o: Options, ms: seq<Entry<Value>>, i: nat)
    requires i <= |ms| && (forall m | m in ms :: Writable(m.val)) && !o.dropNull
    ensures RendersClosed(FastMembers(o, ms, i) + [RBRACE], SpellMembers(ms, i) + [Mark(RBRACE)])
    ensures EndsNumber(FastMembers(o, ms, i) + [RBRACE]) || i == 0
    decreases ms, |ms| - i
  {
    hide Lex, Renders, RendersClosed, FastText, Spell, Writable, Quote;
    if i == |ms| {
      ClosedMark(RBRACE);
      assert [] + [RBRACE] == [RBRACE] && [] + [Mark(RBRACE)] == [Mark(RBRACE)];
    } else {
      assert ms[i] in ms;
      MembersRender(o, ms, i + 1);
      FastRenders(o, ms[i].val);
      var rest, rl := FastMembers(o, ms, i + 1), SpellMembers(ms, i + 1);
      var head := CommaText(i) + Quote(ms[i].key) + ColonText(o);
      var hl := Separator(i) + [Lexeme(StringToken, Quote(ms[i].key)), Mark(COLON)];
      HeadIsClosed(o, i, ms[i].key);
      ElementPiece(head, hl, FastText(o, ms[i].val), Spell(ms[i].val), rest + [RBRACE], rl + [Mark(RBRACE)]);
      Reassociate(head + FastText(o, ms[i].val), rest, [RBRACE]);
      Reassociate(hl + Spell(ms[i].val), rl, [Mark(RBRACE)]);
    }
  }

  lemma HeadIsClosed(o: Options, i: nat, key: Bytes)
    ensures RendersClosed(CommaText(i) + Quote(key) + ColonText(o),
                          Separator(i) + [Lexeme(StringToken, Quote(key)), Mark(COLON)])
  {
    hide Lex, RendersClosed, Quote;
    CommaIsClosed(i);
    ClosedQuoted(key);
    ColonIsClosed(o);
    ClosedConcat(CommaText(i), Separator(i), Quote(key), [Lexeme(StringToken, Quote(key))]);
    ClosedConcat(CommaText(i) + Quote(key), Separator(i) + [Lexeme(StringToken, Quote(key))], ColonText(o),
                 [Mark(COLON)]);
    assert Separator(i) + [Lexeme(StringToken, Quote(key))] + [Mark(COLON)] ==
           Separator(i) + [Lexeme(StringToken, Quote(key)), Mark(COLON)];
  }

  /** The whole document of FastWriter consists of the lexemes of the value. */
  lemma FastLexes(o: Options, v: Value)
    requires Writable(v) && !o.dropNull
    ensures Lex(FastDocument(o, v)) == Spell(v)
  {
    hide Lex, FastText, Spell;
    FastRenders(o, v);
    var end: Bytes := if o.omitLineFeed then [] else [LF];
    assert EndsNumber(end);
    LexEnd(end);
    assert Spell(v) + [] == Spell(v);
  }

  lemma LexEnd(end: Bytes)
    requires AllSpaces(end)
    ensures Lex(end) == []
  {
    LexSpaces(end, []);
    assert end + [] == end;
    assert Lex([]) == [];
  }

  // ---------------------------------------------------------------- the text of the tokens

  /** How a token is written: a blank after the colon with yaml, and nothing for a dropped null. */
  function TokenText(o: Options, l: Lexeme): Bytes {
    if l.kind == MemberSeparator && o.yaml then l.text + [0x20]
    else if l.kind == NullToken && o.dropNull then []
    else l.text
  }

  function Joined(o: Options, ls: seq<Lexeme>): Bytes {
    if ls == [] then [] else TokenText(o, ls[0]) + Joined(o, ls[1..])
  }

  lemma {:induction false} JoinedConcat(o: Options, a: seq<Lexeme>, b: seq<Lexeme>)
    ensures Joined(o, a + b) == Joined(o, a) + Joined(o, b)
  {
    hide TokenText;
    if a == [] {
      assert a + b == b;
    } else {
      assert (a + b)[1..] == a[1..] + b;
      JoinedConcat(o, a[1..], b);
      Reassociate(TokenText(o, a[0]), Joined(o, a[1..]), Joined(o, b));
    }
  }

  lemma JoinedOne(o: Options, l: Lexeme)
    ensures Joined(o, [l]) == TokenText(o, l)
  {
    assert Joined(o, [l][1..]) == [];
  }

  lemma JoinedThree(o: Options, a: seq<Lexeme>, b: seq<Lexeme>, c: seq<Lexeme>)
    ensures Joined(o, a + b + c) == Joined(o, a) + Joined(o, b) + Joined(o, c)
  {
    hide Joined;
    JoinedConcat(o, a + b, c);
    JoinedConcat(o, a, b);
  }

  lemma SeparatorIsJoined(o: Options, i: nat)
    ensures Joined(o, Separator(i)) == if i > 0 then [0x2C] else []
  {
    hide Joined;
    if i > 0 {
      JoinedOne(o, Mark(COMMA));
    } else {
      NothingIsJoined(o);
    }
  }

  lemma NothingIsJoined(o: Options)
    ensures Joined(o, []) == []
  {
  }

  /** The compact text is the tokens of the value one after the other, with nothing between them. */
  lemma {:induction false} FastIsJoined(o: Options, v: Value)
    ensures FastText(o, v) == Joined(o, Spell(v))
    decreases v, 1
  {
    hide Joined, FastElements, FastMembers, SpellElements, SpellMembers, ScalarLexeme;
    match v
    case Leaf(s) =>
      JoinedOne(o, ScalarLexeme(s));
      ScalarIsToken(o, s);
    case Arr(es) =>
      JoinedThree(o, [Mark(LBRACKET)], SpellElements(es, 0), [Mark(RBRACKET)]);
      JoinedOne(o, Mark(LBRACKET));
      JoinedOne(o, Mark(RBRACKET));
      ElementsAreJoined(o, es, 0);
    case Obj(ms) =>
      JoinedThree(o, [Mark(LBRACE)], SpellMembers(ms, 0), [Mark(RBRACE)]);
      JoinedOne(o, Mark(LBRACE));
      JoinedOne(o, Mark(RBRACE));
      MembersAreJoined(o, ms, 0);
  }

  lemma ScalarIsToken(o: Options, s: Scalar)
    ensures TokenText(o, ScalarLexeme(s)) == ScalarText(o, s)
  {
    hide Quote;
  }

  lemma {:induction false} ElementsAreJoined(o: Options, es: seq<Value>, i: nat)
    requires i <= |es|
    ensures FastElements(o, es, i) == Joined(o, SpellElements(es, i))
    decreases es, |es| - i
  {
    hide Joined, FastText, Spell;
    if i == |es| {
      NothingIsJoined(o);
    } else {
      JoinedThree(o, Separator(i), Spell(es[i]), SpellElements(es, i + 1));
      SeparatorIsJoined(o, i);
      FastIsJoined(o, es[i]);
      ElementsAreJoined(o, es, i + 1);
    }
  }

  lemma {:induction false} MembersAreJoined(o: Options, ms: seq<Entry<Value>>, i: nat)
    requires i <= |ms|
    ensures FastMembers(o, ms, i) == Joined(o, SpellMembers(ms, i))
    decreases ms, |ms| - i
  {
    hide Joined, FastText, Spell, Quote;
    if i == |ms| {
      NothingIsJoined(o);
    } else {
      var name := [Lexeme(StringToken, Quote(ms[i].key)), Mark(COLON)];
      JoinedThree(o, Separator(i) + name, Spell(ms[i].val), SpellMembers(ms, i + 1));
      JoinedConcat(o, Separator(i), name);
      SeparatorIsJoined(o, i);
      NameIsJoined(o, ms[i].key);
      FastIsJoined(o, ms[i].val);
      MembersAreJoined(o, ms, i + 1);
      Reassociate(CommaText(i), Quote(ms[i].key), ColonText(o));
    }
  }

  lemma NameIsJoined(o: Options, key: Bytes)
    ensures Joined(o, [Lexeme(StringToken, Quote(key)), Mark(COLON)]) == Quote(key) + ColonText(o)
  {
    hide Quote, Joined;
    JoinedConcat(o, [Lexeme(StringToken, Quote(key))], [Mark(COLON)]);
    JoinedOne(o, Lexeme(StringToken, Quote(key)));
    JoinedOne(o, Mark(COLON));
    assert [Lexeme(StringToken, Quote(key))] + [Mark(COLON)] == [Lexeme(StringToken, Quote(key)), Mark(COLON)];
  }

  /** The document is its tokens and, unless it is omitted, one line feed. */
  lemma DocumentIsTokens(o: Options, v: Value)
    ensures FastDocument(o, v) == Joined(o, Spell(v)) + if o.omitLineFeed then [] else [0x0A]
  {
    hide Joined, FastText, Spell;
    FastIsJoined(o, v);
  }
}
