/**
 * The strict mode. It is meant to accept JSON and nothing else; it accepts comments inside
 * objects, a comma before a closing brace, and numbers and strings that RFC 8259 does not
 * allow. Without these, what it reads is JSON.
 */
module Strictness {
  import opened Bytes
  import opened Seqs
  import opened Wrappers
  import opened Lexer
  import opened LexerTheorems
  import opened Values
  import opened ReaderSpec
  import opened Forms
  import Syntaxes
  import opened FastWriters
  import Grammar
  import Rendering

  /** The features of strictMode, which should accept nothing but JSON and no comments. */
  predicate IsStrict(cfg: Config) {
    !cfg.allowComments && cfg.strictRoot && !cfg.allowDroppedNull && !cfg.allowNumericKeys
  }

  /** The strict mode accepts a comment in an object: the document is {} with a comment between the braces. */
  lemma StrictTakesComments(cfg: Config, root: Node)
    requires IsStrict(cfg)
    ensures Parse(cfg, [0x7B, 0x2F, 0x2A, 0x2A, 0x2F, 0x7D], root).status == Ok
  {
    hide Parse, Lex;
    var x := Mapping([], [], Some([Punct(Comment)]));
    var comment: Bytes := [0x2F, 0x2A] + [] + [0x2A, 0x2F];
    var close: Bytes := [RBRACE];
    var t := [LBRACE] + (comment + close);
    LexPunctuation(LBRACE, comment + close);
    BlockComment([], close);
    LexPunctuation(RBRACE, []);
    NothingLexed();
    assert close + [] == close;
    assert Lex(t) == [Mark(LBRACE), Lexeme(Comment, comment), Mark(RBRACE)];
    assert Written(x) == [Punct(ObjectBegin), Punct(Comment), Punct(ObjectEnd)];
    assert Signs(Lex(t)) == Written(x) + [];
    ReadsWritten(cfg, t, root, x, []);
    assert t == [0x7B, 0x2F, 0x2A, 0x2A, 0x2F, 0x7D];
  }

  /** What follows the root is ignored: the strict mode accepts {} with a closing bracket after it. */
  lemma StrictIgnoresTheRest(cfg: Config, root: Node)
    requires IsStrict(cfg)
    ensures Parse(cfg, [0x7B, 0x7D, 0x5D], root).status == Ok
  {
    hide Parse, Lex;
    var x := Mapping([], [], Some([]));
    LexPunctuation(LBRACE, [RBRACE, RBRACKET]);
    LexPunctuation(RBRACE, [RBRACKET]);
    LexPunctuation(RBRACKET, []);
    NothingLexed();
    var t := [LBRACE] + ([RBRACE] + ([RBRACKET] + []));
    assert [RBRACE] + ([RBRACKET] + []) == [RBRACE, RBRACKET] && [RBRACKET] + [] == [RBRACKET];
    assert Lex(t) == [Mark(LBRACE), Mark(RBRACE), Mark(RBRACKET)];
    assert Written(x) == [Punct(ObjectBegin), Punct(ObjectEnd)];
    assert Signs(Lex(t)) == Written(x) + [Punct(ArrayEnd)];
    ReadsWritten(cfg, t, root, x, [Punct(ArrayEnd)]);
    assert t == [0x7B, 0x7D, 0x5D];
  }

  // ---------------------------------------------------------------- what is accepted is JSON

  /** No comments, and no comma with a closing brace after it. */
  predicate Clean(ls: seq<Lexeme>) {
    && (forall i | 0 <= i < |ls| :: ls[i].kind != Comment)
    && forall i | 0 <= i < |ls| - 1 :: !(ls[i].kind == ArraySeparator && ls[i + 1].kind == ObjectEnd)
  }

  lemma CleanParts(a: seq<Lexeme>, b: seq<Lexeme>)
    requires Clean(a + b)
    ensures Clean(a) && Clean(b)
  {
    var ls := a + b;
    forall i | 0 <= i < |a| ensures a[i].kind != Comment {
      assert ls[i] == a[i];
    }
    forall i | 0 <= i < |b| ensures b[i].kind != Comment {
      assert ls[|a| + i] == b[i];
    }
    forall i | 0 <= i < |a| - 1 ensures !(a[i].kind == ArraySeparator && a[i + 1].kind == ObjectEnd) {
      assert ls[i] == a[i] && ls[i + 1] == a[i + 1];
    }
    forall i | 0 <= i < |b| - 1 ensures !(b[i].kind == ArraySeparator && b[i + 1].kind == ObjectEnd) {
      assert ls[|a| + i] == b[i] && ls[|a| + (i + 1)] == b[i + 1];
    }
  }

  lemma CleanComments(ls: Comments)
    requires AreComments(ls) && Clean(ls)
    ensures ls == []
  {
    hide Clean, AreComments;
    if ls != [] {
      CommentsAreUnclean(ls);
    }
  }

  lemma CommentsAreUnclean(ls: Comments)
    requires AreComments(ls) && ls != []
    ensures !Clean(ls)
  {
    assert ls[0] in ls;
  }

  /** A scalar of RFC 8259: a number, a string or a literal name. */
  ghost predicate IsRfcToken(l: Lexeme) {
    match l.kind
    case NumberToken => exists n :: Grammar.IsNumber(n) && l.text == Grammar.NumberText(n)
    case StringToken => exists cs :: Grammar.AreChars(cs) && l.text == Grammar.StringText(cs)
    case NullToken => l.text == NULL_TEXT
    case TrueToken => l.text == TRUE_TEXT
    case FalseToken => l.text == FALSE_TEXT
    case _ => true
  }

  ghost predicate AreRfcTokens(ls: seq<Lexeme>) {
    forall l | l in ls :: IsRfcToken(l)
  }

  /** The tokens of a text of RFC 8259. */
  ghost predicate IsJson(ls: seq<Lexeme>) {
    exists j :: Grammar.WellFormed(j) && ls == Signs(Syntaxes.Spelling(Grammar.Tree(j)))
  }

  // ---------------------------------------------------------------- JSON is clean

  /** Starts like a value, ends like one, and is clean inside. */
  predicate CleanValue(ls: seq<Lexeme>) {
    Clean(ls) && ls != [] && ls[0].kind != ObjectEnd && ls[|ls| - 1].kind != ArraySeparator
  }

  lemma CleanJoin(a: seq<Lexeme>, b: seq<Lexeme>)
    requires Clean(a) && Clean(b)
    requires a == [] || b == [] || a[|a| - 1].kind != ArraySeparator || b[0].kind != ObjectEnd
    ensures Clean(a + b)
  {
  }

  lemma {:induction false} SpellingIsClean(y: Syntaxes.Syntax)
    requires Syntaxes.Proper(y)
    ensures CleanValue(Syntaxes.Spelling(y))
    decreases y, 1
  {
    match y
    case Atom(l) =>
    case List(es) =>
      ElemsAreClean(es, 0);
      CleanJoin([Mark(LBRACKET)], Syntaxes.SpellElems(es, 0));
      CleanJoin([Mark(LBRACKET)] + Syntaxes.SpellElems(es, 0), [Mark(RBRACKET)]);
    case Record(fs) =>
      FieldsAreClean(fs, 0);
      CleanJoin([Mark(LBRACE)], Syntaxes.SpellFields(fs, 0));
      CleanJoin([Mark(LBRACE)] + Syntaxes.SpellFields(fs, 0), [Mark(RBRACE)]);
  }

  lemma {:induction false} ElemsAreClean(es: seq<Syntaxes.Syntax>, i: nat)
    requires i <= |es| && forall e | e in es :: Syntaxes.Proper(e)
    ensures var ls := Syntaxes.SpellElems(es, i);
            Clean(ls) && (ls != [] ==> ls[|ls| - 1].kind != ArraySeparator && ls[0].kind != ObjectEnd)
    decreases es, |es| - i
  {
    hide Syntaxes.Spelling, Syntaxes.Proper, Clean;
    if i == |es| {
      NothingIsClean();
    } else {
      SpellingIsClean(es[i]);
      ElemsAreClean(es, i + 1);
      SeparatorIsClean(i);
      CleanJoin(Separator(i), Syntaxes.Spelling(es[i]));
      CleanJoin(Separator(i) + Syntaxes.Spelling(es[i]), Syntaxes.SpellElems(es, i + 1));
    }
  }

  lemma NothingIsClean()
    ensures Clean([])
  {
  }

  lemma SeparatorIsClean(i: nat)
    ensures Clean(Separator(i))
  {
  }

  lemma {:induction false} FieldsAreClean(fs: seq<Syntaxes.Field<Syntaxes.Syntax>>, i: nat)
    requires i <= |fs| && forall f | f in fs :: Syntaxes.Proper(f.val)
    ensures var ls := Syntaxes.SpellFields(fs, i);
            Clean(ls) && (ls != [] ==> ls[|ls| - 1].kind != ArraySeparator && ls[0].kind != ObjectEnd)
    decreases fs, |fs| - i
  {
    hide Syntaxes.Spelling, Syntaxes.Proper, Clean;
    if i == |fs| {
      NothingIsClean();
    } else {
      assert fs[i] in fs;
      SpellingIsClean(fs[i].val);
      FieldsAreClean(fs, i + 1);
      SeparatorIsClean(i);
      var name := [Syntaxes.Label(fs[i]), Mark(COLON)];
      NameIsClean(fs[i]);
      CleanJoin(Separator(i), name);
      CleanJoin(Separator(i) + name, Syntaxes.Spelling(fs[i].val));
      CleanJoin(Separator(i) + name + Syntaxes.Spelling(fs[i].val), Syntaxes.SpellFields(fs, i + 1));
    }
  }

  lemma NameIsClean(f: Syntaxes.Field<Syntaxes.Syntax>)
    ensures Clean([Syntaxes.Label(f), Mark(COLON)])
  {
  }

  lemma SignsStayClean(ls: seq<Lexeme>)
    ensures Clean(Signs(ls)) <==> Clean(ls)
  {
    forall i | 0 <= i < |ls| ensures Signs(ls)[i].kind == ls[i].kind {
    }
  }

  // ---------------------------------------------------------------- clean trees are JSON

  /** The tree without comments of a clean form. */
  lemma {:induction false} CleanForm(cfg: Config, x: Form) returns (y: Syntaxes.Syntax)
    requires IsStrict(cfg) && Proper(cfg, x) && Clean(Written(x))
    ensures Syntaxes.Proper(y) && Syntaxes.AsForm(y) == x
    decreases x, 1
  {
    hide Clean, WrittenParts, WrittenBindings, ProperParts, ProperBindings;
    match x
    case Word(lead, l) =>
      y := Syntaxes.Atom(l);
    case Sequence(lead, ps) =>
      var body := if ps == [] then [Punct(ArrayEnd)] else WrittenParts(ps);
      CleanParts(lead, [Punct(ArrayBegin)] + body);
      CleanParts([Punct(ArrayBegin)], body);
      var es := CleanElements(cfg, ps);
      y := Syntaxes.List(es);
    case Mapping(lead, bs, end) =>
      CleanParts(lead, [Punct(ObjectBegin)] + (WrittenBindings(bs) + WrittenEnd(end)));
      CleanParts([Punct(ObjectBegin)], WrittenBindings(bs) + WrittenEnd(end));
      var fs := CleanMembers(cfg, [], bs, end);
      y := Syntaxes.Record(fs);
  }

  lemma {:induction false} PartsShift(e: Syntaxes.Syntax, more: seq<Syntaxes.Syntax>, i: nat)
    requires i <= |more|
    ensures Syntaxes.AsParts([e] + more, i + 1) == Syntaxes.AsParts(more, i)
    decreases |more| - i
  {
    hide Syntaxes.AsForm;
    assert i < |more| ==> ([e] + more)[i + 1] == more[i];
    if i < |more| {
      PartsShift(e, more, i + 1);
      hide Syntaxes.AsParts;
      PartsUnfold([e] + more, i + 1);
      PartsUnfold(more, i);
    }
  }

  lemma PartsUnfold(es: seq<Syntaxes.Syntax>, i: nat)
    requires i < |es|
    ensures Syntaxes.AsParts(es, i) == [Part(Syntaxes.AsForm(es[i]), [])] + Syntaxes.AsParts(es, i + 1)
  {
    hide Syntaxes.AsForm;
  }

  lemma {:induction false} CleanElements(cfg: Config, ps: seq<Part>) returns (es: seq<Syntaxes.Syntax>)
    requires IsStrict(cfg) && ProperParts(cfg, ps) && (ps != [] ==> Clean(WrittenParts(ps)))
    ensures (forall e | e in es :: Syntaxes.Proper(e)) && Syntaxes.AsParts(es, 0) == ps
    decreases ps, 0
  {
    hide Clean, WrittenParts, ProperParts, Written, Proper, Syntaxes.AsForm, Syntaxes.Proper, Meaning, MeaningParts,
      Height, PartsHeight, Readable, ReadableParts;
    if ps == [] {
      es := [];
    } else {
      PartsStep(cfg, ps);
      var x, gap, after := ps[0].val, ps[0].gap, [Punct(PartStop(ps))] + WrittenParts(ps[1..]);
      CleanParts(Written(x), gap + after);
      CleanParts(gap, after);
      CleanParts([Punct(PartStop(ps))], WrittenParts(ps[1..]));
      CleanComments(gap);
      var e := CleanForm(cfg, x);
      var more := CleanElements(cfg, ps[1..]);
      es := [e] + more;
      PartsShift(e, more, 0);
      assert ps == [ps[0]] + ps[1..];
    }
  }

  lemma {:induction false} BindingsShift(f: Syntaxes.Field<Syntaxes.Syntax>,
                                         more: seq<Syntaxes.Field<Syntaxes.Syntax>>, i: nat)
    requires i <= |more|
    ensures Syntaxes.AsBindings([f] + more, i + 1) == Syntaxes.AsBindings(more, i)
    decreases |more| - i
  {
    hide Syntaxes.AsForm;
    if i < |more| {
      BindingsShift(f, more, i + 1);
    }
  }

  /** The pieces of a member list that is clean. */
  lemma CleanBinding(b: Binding, rest: seq<Lexeme>)
    requires AreComments(b.lead) && AreComments(b.gap)
    requires Clean(b.lead + ([b.name, Punct(MemberSeparator)] + (Written(b.val) + (b.gap + ([b.stop] + rest)))))
    ensures b.lead == [] && b.gap == [] && Clean(Written(b.val)) && Clean(rest) && Clean([b.stop] + rest)
  {
    hide Clean, Written, AreComments;
    CleanParts(b.lead, [b.name, Punct(MemberSeparator)] + (Written(b.val) + (b.gap + ([b.stop] + rest))));
    CleanParts([b.name, Punct(MemberSeparator)], Written(b.val) + (b.gap + ([b.stop] + rest)));
    CleanParts(Written(b.val), b.gap + ([b.stop] + rest));
    CleanParts(b.gap, [b.stop] + rest);
    CleanParts([b.stop], rest);
    CleanComments(b.lead);
    CleanComments(b.gap);
  }

  /** A clean object is closed by the brace after its last member, or is empty. */
  lemma {:induction false} CleanMembers(cfg: Config, last: Bytes, bs: seq<Binding>, end: Option<Comments>)
    returns (fs: seq<Syntaxes.Field<Syntaxes.Syntax>>)
    requires IsStrict(cfg) && ProperBindings(cfg, last, bs, end) && Clean(WrittenBindings(bs) + WrittenEnd(end))
    ensures (forall f | f in fs :: Syntaxes.Proper(f.val)) && Syntaxes.AsBindings(fs, 0) == bs
    ensures end == if bs == [] then Some([]) else None
    decreases bs, 0
  {
    hide Clean, WrittenBindings, ProperBindings, Written, Proper, Syntaxes.AsForm, Syntaxes.Proper, Meaning,
      MeaningBindings, Height, BindingsHeight, Readable, ReadableBindings, AreComments, WrittenEnd, NameOf;
    if bs == [] {
      NoBindings(cfg, last, end);
      assert [] + WrittenEnd(end) == WrittenEnd(end);
      CleanEnd(end);
      fs := [];
    } else {
      var b := bs[0];
      BindingsStep(cfg, last, bs, end);
      RegroupBinding(b, WrittenBindings(bs[1..]), WrittenEnd(end));
      CleanBinding(b, WrittenBindings(bs[1..]) + WrittenEnd(end));
      var y := CleanForm(cfg, b.val);
      var f := Syntaxes.Field(b.name.text, y);
      var more := [];
      if b.stop.kind == ObjectEnd {
        assert bs[1..] == [];
      } else {
        more := CleanMembers(cfg, NameText(cfg, b), bs[1..], end);
        NotDangling(b.stop, bs[1..], end);
      }
      fs := [f] + more;
      BindingsShift(f, more, 0);
      assert bs == [b] + bs[1..];
      FirstBinding(f, more, b);
    }
  }

  lemma CleanEnd(end: Option<Comments>)
    requires end.Some? && AreComments(end.value) && Clean(WrittenEnd(end))
    ensures end == Some([])
  {
    hide Clean, AreComments;
    CleanParts(end.value, [Punct(ObjectEnd)]);
    CleanComments(end.value);
  }

  /** A comma is followed by a member. */
  lemma NotDangling(stop: Lexeme, bs: seq<Binding>, end: Option<Comments>)
    requires stop.kind == ArraySeparator && Clean([stop] + (WrittenBindings(bs) + WrittenEnd(end)))
    requires end == if bs == [] then Some([]) else None
    ensures bs != [] && end.None?
  {
    hide WrittenBindings, WrittenEnd, Clean;
    RecordEndIs();
    DanglingIsUnclean(stop);
  }

  lemma DanglingIsUnclean(stop: Lexeme)
    requires stop.kind == ArraySeparator
    ensures !Clean([stop] + [Punct(ObjectEnd)])
  {
    var ls := [stop] + [Punct(ObjectEnd)];
    assert ls[0] == stop && ls[1] == Punct(ObjectEnd);
  }

  lemma RecordEndIs()
    ensures WrittenBindings([]) + WrittenEnd(Some([])) == [Punct(ObjectEnd)]
  {
  }

  lemma FirstBinding(f: Syntaxes.Field<Syntaxes.Syntax>, more: seq<Syntaxes.Field<Syntaxes.Syntax>>, b: Binding)
    requires b.lead == [] && b.gap == [] && b.name == Lexeme(StringToken, f.text) && b.val == Syntaxes.AsForm(f.val)
    requires Sign(b.stop) == b.stop && b.stop.kind == if more == [] then ObjectEnd else ArraySeparator
    ensures Syntaxes.AsBindings([f] + more, 0) == [b] + Syntaxes.AsBindings([f] + more, 1)
  {
    hide Syntaxes.AsForm;
  }

  // ---------------------------------------------------------------- trees of RFC 8259

  lemma RfcParts(a: seq<Lexeme>, b: seq<Lexeme>)
    ensures AreRfcTokens(a + b) <==> AreRfcTokens(a) && AreRfcTokens(b)
  {
    hide IsRfcToken;
    forall l ensures l in a + b <==> l in a || l in b {
    }
  }

  lemma MarksAreRfc(c: byte)
    requires Punctuation(c) != ErrorToken && c != NUL
    ensures AreRfcTokens([Mark(c)])
  {
  }

  lemma SignsAreRfc(ls: seq<Lexeme>)
    ensures AreRfcTokens(Signs(ls)) <==> AreRfcTokens(ls)
  {
    hide AreRfcTokens, IsRfcToken;
    if AreRfcTokens(ls) {
      OneWay(ls);
    }
    if AreRfcTokens(Signs(ls)) {
      OtherWay(ls);
    }
  }

  lemma SignIsRfc(l: Lexeme)
    ensures IsRfcToken(Sign(l)) <==> IsRfcToken(l)
  {
  }

  lemma OneWay(ls: seq<Lexeme>)
    requires AreRfcTokens(ls)
    ensures AreRfcTokens(Signs(ls))
  {
    hide IsRfcToken, Sign;
    forall l | l in Signs(ls) ensures IsRfcToken(l) {
      var i :| 0 <= i < |ls| && Signs(ls)[i] == l;
      assert ls[i] in ls;
      SignIsRfc(ls[i]);
    }
  }

  lemma OtherWay(ls: seq<Lexeme>)
    requires AreRfcTokens(Signs(ls))
    ensures AreRfcTokens(ls)
  {
    hide IsRfcToken, Sign;
    forall l | l in ls ensures IsRfcToken(l) {
      var i :| 0 <= i < |ls| && ls[i] == l;
      assert Signs(ls)[i] in Signs(ls);
      SignIsRfc(l);
    }
  }

  /** Every token of a text of the grammar is a token of the grammar. */
  lemma {:induction false} TreeIsRfc(j: Grammar.Json)
    requires Grammar.WellFormed(j)
    ensures AreRfcTokens(Syntaxes.Spelling(Grammar.Tree(j)))
    decreases j, 1
  {
    hide AreRfcTokens, Syntaxes.Spelling, Grammar.Tree;
    match j
    case JArray(blank, items) =>
      Grammar.TreeArray(blank, items);
      ItemsAreRfc(items, 0);
      ListIsRfc(Grammar.Trees(items));
    case JObject(blank, members) =>
      Grammar.TreeObject(blank, members);
      PairsAreRfc(members, 0);
      RecordIsRfc(Grammar.TreePairs(members));
    case _ => AtomIsRfc(j);
  }

  lemma AtomIsRfc(j: Grammar.Json)
    requires Grammar.WellFormed(j) && !j.JArray? && !j.JObject?
    ensures AreRfcTokens(Syntaxes.Spelling(Grammar.Tree(j)))
  {
    hide Grammar.NumberText, Grammar.StringText, Grammar.IsNumber, Grammar.AreChars;
  }

  lemma ListIsRfc(es: seq<Syntaxes.Syntax>)
    ensures AreRfcTokens(Syntaxes.Spelling(Syntaxes.List(es))) <==> AreRfcTokens(Syntaxes.SpellElems(es, 0))
  {
    hide AreRfcTokens, Syntaxes.SpellElems;
    RfcParts([Mark(LBRACKET)] + Syntaxes.SpellElems(es, 0), [Mark(RBRACKET)]);
    RfcParts([Mark(LBRACKET)], Syntaxes.SpellElems(es, 0));
    MarksAreRfc(LBRACKET);
    MarksAreRfc(RBRACKET);
  }

  lemma RecordIsRfc(fs: seq<Syntaxes.Field<Syntaxes.Syntax>>)
    ensures AreRfcTokens(Syntaxes.Spelling(Syntaxes.Record(fs))) <==> AreRfcTokens(Syntaxes.SpellFields(fs, 0))
  {
    hide AreRfcTokens, Syntaxes.SpellFields;
    RfcParts([Mark(LBRACE)] + Syntaxes.SpellFields(fs, 0), [Mark(RBRACE)]);
    RfcParts([Mark(LBRACE)], Syntaxes.SpellFields(fs, 0));
    MarksAreRfc(LBRACE);
    MarksAreRfc(RBRACE);
  }

  lemma SeparatorIsRfc(i: nat)
    ensures AreRfcTokens(Separator(i)) && AreRfcTokens([])
  {
  }

  lemma ElemsAreRfc(es: seq<Syntaxes.Syntax>, i: nat)
    requires i <= |es|
    ensures AreRfcTokens(Syntaxes.SpellElems(es, i)) <==>
            i == |es| || (AreRfcTokens(Syntaxes.Spelling(es[i])) && AreRfcTokens(Syntaxes.SpellElems(es, i + 1)))
  {
    hide AreRfcTokens, Syntaxes.Spelling;
    SeparatorIsRfc(i);
    if i < |es| {
      RfcParts(Separator(i) + Syntaxes.Spelling(es[i]), Syntaxes.SpellElems(es, i + 1));
      RfcParts(Separator(i), Syntaxes.Spelling(es[i]));
    }
  }

  lemma FieldsAreRfc(fs: seq<Syntaxes.Field<Syntaxes.Syntax>>, i: nat)
    requires i <= |fs|
    ensures AreRfcTokens(Syntaxes.SpellFields(fs, i)) <==>
            i == |fs|
            || (&& IsRfcToken(Syntaxes.Label(fs[i])) && AreRfcTokens(Syntaxes.Spelling(fs[i].val))
                && AreRfcTokens(Syntaxes.SpellFields(fs, i + 1)))
  {
    hide AreRfcTokens, Syntaxes.Spelling, IsRfcToken;
    SeparatorIsRfc(i);
    if i < |fs| {
      var name := [Syntaxes.Label(fs[i]), Mark(COLON)];
      RfcParts(Separator(i) + name + Syntaxes.Spelling(fs[i].val), Syntaxes.SpellFields(fs, i + 1));
      RfcParts(Separator(i) + name, Syntaxes.Spelling(fs[i].val));
      RfcParts(Separator(i), name);
      assert name == [Syntaxes.Label(fs[i])] + [Mark(COLON)];
      RfcParts([Syntaxes.Label(fs[i])], [Mark(COLON)]);
      MarksAreRfc(COLON);
      OneIsRfc(Syntaxes.Label(fs[i]));
    }
  }

  lemma OneIsRfc(l: Lexeme)
    ensures AreRfcTokens([l]) <==> IsRfcToken(l)
  {
    hide IsRfcToken;
    assert l in [l];
  }

  lemma {:induction false} ItemsAreRfc(items: seq<Grammar.Item<Grammar.Json>>, i: nat)
    requires i <= |items| && forall x | x in items :: Grammar.WellFormed(x.val)
    ensures AreRfcTokens(Syntaxes.SpellElems(Grammar.Trees(items), i))
    decreases items, |items| - i
  {
    hide AreRfcTokens, Syntaxes.Spelling, Grammar.WellFormed, Grammar.Tree, Syntaxes.SpellElems;
    ElemsAreRfc(Grammar.Trees(items), i);
    if i < |items| {
      assert items[i] in items;
      TreeIsRfc(items[i].val);
      ItemsAreRfc(items, i + 1);
    }
  }

  lemma {:induction false} PairsAreRfc(members: seq<Grammar.Pair<Grammar.Json>>, i: nat)
    requires i <= |members| && forall x | x in members :: Grammar.WellFormed(x.val) && Grammar.AreChars(x.name)
    ensures AreRfcTokens(Syntaxes.SpellFields(Grammar.TreePairs(members), i))
    decreases members, |members| - i
  {
    hide AreRfcTokens, Syntaxes.Spelling, Grammar.WellFormed, Grammar.Tree, Grammar.AreChars, Syntaxes.SpellFields,
      Grammar.StringText;
    FieldsAreRfc(Grammar.TreePairs(members), i);
    if i < |members| {
      assert members[i] in members;
      TreeIsRfc(members[i].val);
      PairsAreRfc(members, i + 1);
    }
  }

  /** A text of the grammar for a tree with tokens of the grammar. */
  lemma {:induction false} JsonOf(y: Syntaxes.Syntax) returns (j: Grammar.Json)
    requires Syntaxes.Proper(y) && AreRfcTokens(Syntaxes.Spelling(y))
    ensures Grammar.WellFormed(j) && Grammar.Tree(j) == y
    decreases y, 1
  {
    hide AreRfcTokens, Syntaxes.SpellElems, Syntaxes.SpellFields, IsRfcToken, Grammar.IsNumber, Grammar.AreChars,
      Grammar.NumberText, Grammar.StringText, Rendering.AllSpaces;
    NoSpaces();
    match y
    case Atom(l) =>
      OneIsRfc(l);
      j := JsonAtom(l);
    case List(es) =>
      ListIsRfc(es);
      var items := JsonItems(es, 0);
      j := Grammar.JArray([], items);
      Grammar.TreeArray([], items);
      assert es[0..] == es;
    case Record(fs) =>
      RecordIsRfc(fs);
      var members := JsonMembers(fs, 0);
      j := Grammar.JObject([], members);
      Grammar.TreeObject([], members);
      assert fs[0..] == fs;
  }

  lemma NoSpaces()
    ensures Rendering.AllSpaces([])
  {
  }

  lemma JsonAtom(l: Lexeme) returns (j: Grammar.Json)
    requires IsScalarKind(l.kind) && IsRfcToken(l)
    ensures Grammar.WellFormed(j) && Grammar.Tree(j) == Syntaxes.Atom(l)
  {
    hide Grammar.IsNumber, Grammar.AreChars, Grammar.NumberText, Grammar.StringText;
    match l.kind
    case NumberToken =>
      var n :| Grammar.IsNumber(n) && l.text == Grammar.NumberText(n);
      j := Grammar.JNumber(n);
    case StringToken =>
      var cs :| Grammar.AreChars(cs) && l.text == Grammar.StringText(cs);
      j := Grammar.JString(cs);
    case NullToken => j := Grammar.JNull;
    case TrueToken => j := Grammar.JTrue;
    case FalseToken => j := Grammar.JFalse;
  }

  lemma {:induction false} JsonItems(es: seq<Syntaxes.Syntax>, i: nat)
    returns (items: seq<Grammar.Item<Grammar.Json>>)
    requires i <= |es| && (forall e | e in es :: Syntaxes.Proper(e)) && AreRfcTokens(Syntaxes.SpellElems(es, i))
    ensures Grammar.Trees(items) == es[i..]
    ensures forall x | x in items ::
              x.before == [] && x.after == [] && Grammar.WellFormed(x.val)
    decreases es, |es| - i
  {
    hide AreRfcTokens, Syntaxes.SpellElems, Grammar.Tree, Grammar.WellFormed, Syntaxes.Proper, Syntaxes.Spelling;
    ElemsAreRfc(es, i);
    if i == |es| {
      items := [];
    } else {
      var j := JsonOf(es[i]);
      var more := JsonItems(es, i + 1);
      items := [Grammar.Item([], j, [])] + more;
      assert es[i..] == [es[i]] + es[i + 1..];
      assert Grammar.Trees(items) == [Grammar.Tree(j)] + Grammar.Trees(more);
    }
  }

  lemma {:induction false} JsonMembers(fs: seq<Syntaxes.Field<Syntaxes.Syntax>>, i: nat)
    returns (members: seq<Grammar.Pair<Grammar.Json>>)
    requires i <= |fs| && (forall f | f in fs :: Syntaxes.Proper(f.val))
    requires AreRfcTokens(Syntaxes.SpellFields(fs, i))
    ensures Grammar.TreePairs(members) == fs[i..]
    ensures forall x | x in members ::
              && x.before == [] && x.mid == [] && x.lead == [] && x.after == []
              && Grammar.AreChars(x.name) && Grammar.WellFormed(x.val)
    decreases fs, |fs| - i
  {
    hide AreRfcTokens, Syntaxes.SpellFields, Grammar.Tree, Grammar.WellFormed, Syntaxes.Proper, Syntaxes.Spelling,
      Grammar.AreChars, Grammar.StringText;
    FieldsAreRfc(fs, i);
    if i == |fs| {
      members := [];
    } else {
      assert fs[i] in fs;
      var cs :| Grammar.AreChars(cs) && fs[i].text == Grammar.StringText(cs);
      var j := JsonOf(fs[i].val);
      var more := JsonMembers(fs, i + 1);
      var x := Grammar.Pair([], cs, [], [], j, []);
      members := [x] + more;
      assert fs[i..] == [fs[i]] + fs[i + 1..];
      assert Grammar.TreePairs(members) == [Syntaxes.Field(Grammar.StringText(cs), Grammar.Tree(j))]
                                           + Grammar.TreePairs(more);
    }
  }

  /**
   * In strict mode, what is read of a document is JSON exactly when it contains no comment, no
   * comma with a closing brace after it, and only numbers and strings that RFC 8259 allows.
   */
  lemma StrictIsJsonIff(cfg: Config, t: Bytes, x: Form, more: seq<Lexeme>)
    requires IsStrict(cfg) && IsWrittenAs(cfg, t, x, more)
    ensures IsJson(Written(x)) <==> Clean(Written(x)) && AreRfcTokens(Written(x))
  {
    hide *;
    if Clean(Written(x)) && AreRfcTokens(Written(x)) {
      CleanIsJson(cfg, t, x, more);
    }
    if IsJson(Written(x)) {
      JsonIsClean(Written(x));
    }
  }

  lemma CleanIsJson(cfg: Config, t: Bytes, x: Form, more: seq<Lexeme>)
    requires IsStrict(cfg) && IsWrittenAs(cfg, t, x, more) && Clean(Written(x)) && AreRfcTokens(Written(x))
    ensures IsJson(Written(x))
  {
    hide Clean, Written, Proper, Syntaxes.Proper, Syntaxes.AsForm, Syntaxes.Spelling, Signs, Lex, Follows, AreRfcTokens,
      Grammar.WellFormed, Grammar.Tree;
    var y := CleanForm(cfg, x);
    Syntaxes.FormMatches(cfg, y);
    MatchesWritten(cfg, y);
    SignsAreRfc(Syntaxes.Spelling(y));
    var j := JsonOf(y);
  }

  lemma JsonIsClean(ls: seq<Lexeme>)
    requires IsJson(ls)
    ensures Clean(ls) && AreRfcTokens(ls)
  {
    hide Clean, Syntaxes.Proper, Syntaxes.Spelling, Signs, AreRfcTokens, Grammar.WellFormed, Grammar.Tree;
    var j :| Grammar.WellFormed(j) && ls == Signs(Syntaxes.Spelling(Grammar.Tree(j)));
    TreeIsProper(j);
    SpellingIsClean(Grammar.Tree(j));
    SignsStayClean(Syntaxes.Spelling(Grammar.Tree(j)));
    TreeIsRfc(j);
    SignsAreRfc(Syntaxes.Spelling(Grammar.Tree(j)));
  }

  lemma {:induction false} TreeIsProper(j: Grammar.Json)
    requires Grammar.WellFormed(j)
    ensures Syntaxes.Proper(Grammar.Tree(j))
    decreases j
  {
    match j
    case JArray(blank, items) =>
      forall x | x in items ensures Syntaxes.Proper(Grammar.Tree(x.val)) {
        TreeIsProper(x.val);
      }
    case JObject(blank, members) =>
      forall x | x in members ensures Syntaxes.Proper(Grammar.Tree(x.val)) {
        TreeIsProper(x.val);
      }
    case _ =>
  }

  lemma MatchesWritten(cfg: Config, y: Syntaxes.Syntax)
    requires Syntaxes.Matches(cfg, y)
    ensures Written(Syntaxes.AsForm(y)) == Signs(Syntaxes.Spelling(y))
  {
    hide Written, Syntaxes.AsForm, Signs, Syntaxes.Spelling;
  }
}
