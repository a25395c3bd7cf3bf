/** The pretty writer emits the same lexemes as the compact one, so both are read back alike. */
module StyledTheorems {
  import opened Bytes
  import opened Seqs
  import opened StringCodec
  import opened Lexer
  import opened Values
  import opened FastWriters
  import opened FastTheorems
  import opened Rendering
  import opened StyledWriters
  import opened ReaderSpec
  import opened RoundTrip

  /** The settings of StreamWriterBuilder with null placeholders kept and a blank indentation. */
  predicate GoodStyle(st: Style) {
    && AllSpaces(st.indentation) && AllSpaces(st.ending) && st.nullSymbol == NULL_TEXT
    && (st.colon == [SPACE, COLON, SPACE] || st.colon == [COLON, SPACE] || st.colon == [COLON])
  }

  // ---------------------------------------------------------------- pieces

  lemma IndentIsClosed(st: Style, ind: Bytes)
    requires AllSpaces(ind)
    ensures RendersClosed(IndentText(st, ind), [])
  {
    hide Lex, RendersClosed;
    ClosedSpaces(IndentText(st, ind));
  }

  lemma ColonSymbolIsClosed(st: Style)
    requires GoodStyle(st)
    ensures RendersClosed(st.colon, [Mark(COLON)])
  {
    hide Lex, RendersClosed;
    ClosedMark(COLON);
    ClosedSpaces([SPACE]);
    ClosedConcat([COLON], [Mark(COLON)], [SPACE], []);
    ClosedConcat([SPACE], [], [COLON] + [SPACE], [Mark(COLON)] + []);
    assert [SPACE] + ([COLON] + [SPACE]) == [SPACE, COLON, SPACE] && [COLON] + [SPACE] == [COLON, SPACE];
    assert [] + ([Mark(COLON)] + []) == [Mark(COLON)] && [Mark(COLON)] + [] == [Mark(COLON)];
  }

  /** Spaces before or after a closed piece add no lexeme. */
  lemma Padded(w: Bytes, x: Bytes, l: seq<Lexeme>)
    requires RendersClosed(w, []) && RendersClosed(x, l)
    ensures RendersClosed(w + x, l) && RendersClosed(x + w, l)
  {
    hide Lex, RendersClosed;
    ClosedConcat(w, [], x, l);
    ClosedConcat(x, l, w, []);
    assert [] + l == l && l + [] == l;
  }

  lemma ShortRenders(st: Style, v: Value)
    requires GoodStyle(st) && Writable(v) && IsShort(v)
    ensures Renders(ShortText(st, v), Spell(v))
  {
    hide Lex, Renders, RendersClosed;
    match v
    case Leaf(s) => RendersScalar(s);
    case Arr(_) =>
      ClosedMark(LBRACKET);
      ClosedMark(RBRACKET);
      ClosedConcat([LBRACKET], [Mark(LBRACKET)], [RBRACKET], [Mark(RBRACKET)]);
      ClosedIsRendered([LBRACKET] + [RBRACKET], [Mark(LBRACKET)] + [Mark(RBRACKET)]);
      assert Spell(v) == [Mark(LBRACKET)] + [Mark(RBRACKET)] && [LBRACKET] + [RBRACKET] == [LBRACKET, RBRACKET];
    case Obj(_) =>
      ClosedMark(LBRACE);
      ClosedMark(RBRACE);
      ClosedConcat([LBRACE], [Mark(LBRACE)], [RBRACE], [Mark(RBRACE)]);
      ClosedIsRendered([LBRACE] + [RBRACE], [Mark(LBRACE)] + [Mark(RBRACE)]);
      assert Spell(v) == [Mark(LBRACE)] + [Mark(RBRACE)] && [LBRACE] + [RBRACE] == [LBRACE, RBRACE];
  }

  /** A closing mark after spaces. */
  lemma ClosingIsClosed(w: Bytes, c: byte)
    requires AllSpaces(w) && (c == RBRACKET || c == RBRACE)
    ensures RendersClosed(w + [c], [Mark(c)]) && w + [c] != [] && EndsNumber(w + [c])
  {
    hide Lex, RendersClosed;
    ClosedSpaces(w);
    ClosedMark(c);
    Padded(w, [c], [Mark(c)]);
    assert (w + [c])[0] == if w == [] then c else w[0];
    assert w != [] ==> IsSpace(w[0]);
  }

  // ---------------------------------------------------------------- lists

  function JoinHead(st: Style, i: nat): Bytes {
    if i > 0 then [COMMA] + Blank(st) else []
  }

  lemma JoinHeadIsClosed(st: Style, i: nat)
    ensures RendersClosed(JoinHead(st, i), Separator(i))
  {
    hide Lex, RendersClosed;
    if i > 0 {
      ClosedMark(COMMA);
      ClosedSpaces(Blank(st));
      Padded(Blank(st), [COMMA], [Mark(COMMA)]);
    } else {
      ClosedSpaces([]);
    }
  }

  lemma {:induction false} JoinRenders(st: Style, es: seq<Value>, i: nat, close: Bytes)
    requires GoodStyle(st) && i <= |es| && NoneNested(es) && (forall e | e in es :: Writable(e))
    requires RendersClosed(close, [Mark(RBRACKET)]) && close != [] && EndsNumber(close)
    ensures RendersClosed(JoinElements(st, es, i) + close, SpellElements(es, i) + [Mark(RBRACKET)])
    ensures i > 0 ==> EndsNumber(JoinElements(st, es, i) + close)
    decreases |es| - i
  {
    hide Lex, Renders, RendersClosed, ShortText, Spell, Writable, GoodStyle;
    if i == |es| {
      assert [] + close == close && [] + [Mark(RBRACKET)] == [Mark(RBRACKET)];
    } else {
      JoinRenders(st, es, i + 1, close);
      ShortRenders(st, es[i]);
      JoinHeadIsClosed(st, i);
      var rest, rl := JoinElements(st, es, i + 1), SpellElements(es, i + 1);
      ElementPiece(JoinHead(st, i), Separator(i), ShortText(st, es[i]), Spell(es[i]), rest + close,
                   rl + [Mark(RBRACKET)]);
      Reassociate(JoinHead(st, i) + ShortText(st, es[i]), rest, close);
      Reassociate(Separator(i) + Spell(es[i]), rl, [Mark(RBRACKET)]);
      if i > 0 {
        assert (JoinElements(st, es, i) + close)[0] == COMMA;
      }
    }
  }

  lemma LineHeadIsClosed(st: Style, ind: Bytes, i: nat)
    requires AllSpaces(ind)
    ensures RendersClosed(CommaText(i) + IndentText(st, ind), Separator(i))
  {
    hide Lex, RendersClosed;
    CommaIsClosed(i);
    IndentIsClosed(st, ind);
    Padded(IndentText(st, ind), CommaText(i), Separator(i));
  }

  lemma NameHeadIsClosed(st: Style, ind: Bytes, i: nat, key: Bytes)
    requires GoodStyle(st) && AllSpaces(ind)
    ensures RendersClosed(CommaText(i) + IndentText(st, ind) + Quote(key) + st.colon,
                          Separator(i) + [Lexeme(StringToken, Quote(key)), Mark(COLON)])
  {
    hide Lex, RendersClosed, Quote, IndentText, GoodStyle;
    LineHeadIsClosed(st, ind, i);
    ClosedQuoted(key);
    ColonSymbolIsClosed(st);
    var h, q := CommaText(i) + IndentText(st, ind), Lexeme(StringToken, Quote(key));
    ClosedConcat(h, Separator(i), Quote(key), [q]);
    ClosedConcat(h + Quote(key), Separator(i) + [q], st.colon, [Mark(COLON)]);
    assert Separator(i) + [q] + [Mark(COLON)] == Separator(i) + [q, Mark(COLON)];
  }

  lemma {:induction false} ElementsRenderPretty(st: Style, es: seq<Value>, i: nat, ind: Bytes, close: Bytes)
    requires GoodStyle(st) && AllSpaces(ind) && i <= |es| && (forall e | e in es :: Writable(e))
    requires RendersClosed(close, [Mark(RBRACKET)]) && close != [] && EndsNumber(close)
    ensures RendersClosed(PrettyElements(st, es, i, ind) + close, SpellElements(es, i) + [Mark(RBRACKET)])
    ensures i > 0 ==> EndsNumber(PrettyElements(st, es, i, ind) + close)
    decreases es, |es| - i
  {
    hide Lex, Renders, RendersClosed, Pretty, Spell, Writable, GoodStyle, IndentText;
    if i == |es| {
      assert [] + close == close && [] + [Mark(RBRACKET)] == [Mark(RBRACKET)];
    } else {
      ElementsRenderPretty(st, es, i + 1, ind, close);
      PrettyRenders(st, es[i], ind, true);
      LineHeadIsClosed(st, ind, i);
      var rest, rl := PrettyElements(st, es, i + 1, ind), SpellElements(es, i + 1);
      var h := CommaText(i) + IndentText(st, ind);
      ElementPiece(h, Separator(i), Pretty(st, es[i], ind, true), Spell(es[i]), rest + close, rl + [Mark(RBRACKET)]);
      Reassociate(h + Pretty(st, es[i], ind, true), rest, close);
      Reassociate(Separator(i) + Spell(es[i]), rl, [Mark(RBRACKET)]);
      if i > 0 {
        assert (PrettyElements(st, es, i, ind) + close)[0] == COMMA;
      }
    }
  }

  lemma {:induction false} MembersRenderPretty(st: Style, ms: seq<Entry<Value>>, i: nat, ind: Bytes, close: Bytes)
    requires GoodStyle(st) && AllSpaces(ind) && i <= |ms| && (forall m | m in ms :: Writable(m.val))
    requires RendersClosed(close, [Mark(RBRACE)]) && close != [] && EndsNumber(close)
    ensures RendersClosed(PrettyMembers(st, ms, i, ind) + close, SpellMembers(ms, i) + [Mark(RBRACE)])
    ensures i > 0 ==> EndsNumber(PrettyMembers(st, ms, i, ind) + close)
    decreases ms, |ms| - i
  {
    hide Lex, Renders, RendersClosed, Pretty, Spell, Writable, GoodStyle, IndentText, Quote;
    if i == |ms| {
      assert [] + close == close && [] + [Mark(RBRACE)] == [Mark(RBRACE)];
    } else {
      assert ms[i] in ms;
      MembersRenderPretty(st, ms, i + 1, ind, close);
      PrettyRenders(st, ms[i].val, ind, false);
      NameHeadIsClosed(st, ind, i, ms[i].key);
      var rest, rl := PrettyMembers(st, ms, i + 1, ind), SpellMembers(ms, i + 1);
      var h := CommaText(i) + IndentText(st, ind) + Quote(ms[i].key) + st.colon;
      var hl := Separator(i) + [Lexeme(StringToken, Quote(ms[i].key)), Mark(COLON)];
      var x, xl := Pretty(st, ms[i].val, ind, false), Spell(ms[i].val);
      ElementPiece(h, hl, x, xl, rest + close, rl + [Mark(RBRACE)]);
      Reassociate(h + x, rest, close);
      Reassociate(hl + xl, rl, [Mark(RBRACE)]);
      if i > 0 {
        assert (PrettyMembers(st, ms, i, ind) + close)[0] == COMMA;
      }
    }
  }

  // ---------------------------------------------------------------- values

  /** front, opening mark, body with its closing mark */
  lemma Bracketed(front: Bytes, open: byte, body: Bytes, l: seq<Lexeme>)
    requires RendersClosed(front, []) && (open == LBRACKET || open == LBRACE) && RendersClosed(body, l)
    ensures Renders(front + [open] + body, [Mark(open)] + l)
  {
    hide Lex, Renders, RendersClosed;
    ClosedMark(open);
    Padded(front, [open], [Mark(open)]);
    ClosedConcat(front + [open], [Mark(open)], body, l);
    ClosedIsRendered(front + [open] + body, [Mark(open)] + l);
  }

  /** Pretty text renders the lexemes of the value. */
  lemma {:induction false} PrettyRenders(st: Style, v: Value, ind: Bytes, indented: bool)
    requires GoodStyle(st) && AllSpaces(ind) && Writable(v)
    ensures Renders(Pretty(st, v, ind, indented), Spell(v))
    decreases v, 1
  {
    hide Lex, Renders, RendersClosed, Pretty, Spell, Writable, SingleLine;
    if IsShort(v) {
      ShortRenders(st, v);
      ShortIsPretty(st, v, ind, indented);
    } else {
      WritableParts(v);
      if v.Obj? {
        ObjectRenders(st, v.members, ind, indented);
      } else if SingleLine(st, v.elems) {
        SingleRenders(st, v.elems, ind, indented);
      } else {
        MultiRenders(st, v.elems, ind, indented);
      }
    }
  }

  lemma SingleRenders(st: Style, es: seq<Value>, ind: Bytes, indented: bool)
    requires GoodStyle(st) && es != [] && SingleLine(st, es) && (forall e | e in es :: Writable(e))
    ensures Renders(Pretty(st, Arr(es), ind, indented), Spell(Arr(es)))
  {
    hide Lex, Renders, RendersClosed, Pretty, Spell, Writable, LineLength, GoodStyle, JoinElements;
    var w := Blank(st);
    ClosingIsClosed(w, RBRACKET);
    JoinRenders(st, es, 0, w + [RBRACKET]);
    ClosedSpaces(w);
    Padded(w, JoinElements(st, es, 0) + (w + [RBRACKET]), SpellElements(es, 0) + [Mark(RBRACKET)]);
    ClosedSpaces([]);
    Bracketed([], LBRACKET, w + (JoinElements(st, es, 0) + (w + [RBRACKET])), SpellElements(es, 0) + [Mark(RBRACKET)]);
    SingleText(st, es, ind, indented);
    RegroupLine([LBRACKET], w, JoinElements(st, es, 0), [RBRACKET]);
    SpellContainer(es, []);
  }

  lemma RegroupLine<T>(a: seq<T>, w: seq<T>, b: seq<T>, c: seq<T>)
    ensures [] + a + (w + (b + (w + c))) == a + w + b + w + c
  {
  }

  lemma SpellContainer(es: seq<Value>, ms: seq<Entry<Value>>)
    ensures Spell(Arr(es)) == [Mark(LBRACKET)] + (SpellElements(es, 0) + [Mark(RBRACKET)])
    ensures Spell(Obj(ms)) == [Mark(LBRACE)] + (SpellMembers(ms, 0) + [Mark(RBRACE)])
  {
  }

  lemma FrontIsClosed(st: Style, ind: Bytes, indented: bool)
    requires AllSpaces(ind)
    ensures RendersClosed(if indented then [] else IndentText(st, ind), [])
  {
    hide Lex, RendersClosed;
    if indented {
      ClosedSpaces([]);
    } else {
      IndentIsClosed(st, ind);
    }
  }

  lemma {:induction false} MultiRenders(st: Style, es: seq<Value>, ind: Bytes, indented: bool)
    requires GoodStyle(st) && AllSpaces(ind) && es != [] && !SingleLine(st, es) && (forall e | e in es :: Writable(e))
    ensures Renders(Pretty(st, Arr(es), ind, indented), Spell(Arr(es)))
    decreases es, |es| + 1
  {
    hide Lex, Renders, RendersClosed, Pretty, Spell, Writable, SingleLine, PrettyElements;
    var close := IndentText(st, ind) + [RBRACKET];
    ClosingIsClosed(IndentText(st, ind), RBRACKET);
    var inner := ind + st.indentation;
    ElementsRenderPretty(st, es, 0, inner, close);
    FrontIsClosed(st, ind, indented);
    var front := if indented then [] else IndentText(st, ind);
    Bracketed(front, LBRACKET, PrettyElements(st, es, 0, inner) + close, SpellElements(es, 0) + [Mark(RBRACKET)]);
    MultiText(st, es, ind, indented);
    Regroup4(front + [LBRACKET], PrettyElements(st, es, 0, inner), IndentText(st, ind), [RBRACKET]);
    SpellContainer(es, []);
  }

  lemma {:induction false} ObjectRenders(st: Style, ms: seq<Entry<Value>>, ind: Bytes, indented: bool)
    requires GoodStyle(st) && AllSpaces(ind) && ms != [] && (forall m | m in ms :: Writable(m.val))
    ensures Renders(Pretty(st, Obj(ms), ind, indented), Spell(Obj(ms)))
    decreases ms, |ms| + 1
  {
    hide Lex, Renders, RendersClosed, Pretty, Spell, Writable, PrettyMembers;
    var close := IndentText(st, ind) + [RBRACE];
    ClosingIsClosed(IndentText(st, ind), RBRACE);
    var inner := ind + st.indentation;
    MembersRenderPretty(st, ms, 0, inner, close);
    FrontIsClosed(st, ind, indented);
    var front := if indented then [] else IndentText(st, ind);
    Bracketed(front, LBRACE, PrettyMembers(st, ms, 0, inner) + close, SpellMembers(ms, 0) + [Mark(RBRACE)]);
    ObjPretty(st, ms, ind, indented);
    Regroup4(front + [LBRACE], PrettyMembers(st, ms, 0, inner), IndentText(st, ind), [RBRACE]);
    SpellContainer([], ms);
  }

  lemma Regroup4<T>(a: seq<T>, b: seq<T>, c: seq<T>, d: seq<T>)
    ensures a + b + c + d == a + (b + (c + d))
  {
  }

  // ---------------------------------------------------------------- documents

  /** Pretty and compact documents of a value consist of the same tokens. */
  lemma WritersAgree(st: Style, o: Options, v: Value)
    requires GoodStyle(st) && !o.dropNull && Writable(v)
    ensures Lex(PrettyDocument(st, v)) == Lex(FastDocument(o, v)) == Spell(v)
  {
    hide Lex, Pretty, Spell, Writable, FastText;
    FastLexes(o, v);
    PrettyRenders(st, v, [], true);
    EndingEndsNumber(st);
    LexEnd(st.ending);
    assert Spell(v) + [] == Spell(v);
  }

  lemma EndingEndsNumber(st: Style)
    requires GoodStyle(st)
    ensures EndsNumber(st.ending)
  {
    assert st.ending != [] ==> IsSpace(st.ending[0]);
  }

  /** So the reader reads the pretty document back as it reads the compact one. */
  lemma PrettyRoundTrip(cfg: Config, st: Style, v: Value, root: Node)
    requires GoodStyle(st) && Writable(v) && (cfg.strictRoot ==> !v.Leaf?)
    ensures var p := Parse(cfg, PrettyDocument(st, v), root);
            if Depth(v) <= 1000 then p.status == Ok && Strip(p.root) == Canon(v) && p.errors == []
            else p.status == Aborted
  {
    hide Lex, Parse, PrettyDocument, Depth, Canon, Writable, Spell, GoodStyle;
    WritersAgree(st, Options(false, false, false), v);
    ReadsBack(cfg, PrettyDocument(st, v), root, v);
  }
}
