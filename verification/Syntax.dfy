/**
 * Documents as trees of lexemes, and what the reader makes of them. The reader depends only on
 * the lexemes of a document, so one proof covers every text that is spelled like a tree:
 * whatever a writer wrote, and whatever the grammar of JSON allows.
 */
module Syntaxes {
  import opened Bytes
  import opened Seqs
  import opened Lexer
  import opened Values
  import opened ReaderSpec
  import opened Wrappers
  import opened Forms

  datatype Syntax =
    | Atom(lexeme: Lexeme)
    | List(elems: seq<Syntax>)
    | Record(fields: seq<Field<Syntax>>)

  /** A member: the text of its name token, and its value. */
  datatype Field<V> = Field(text: Bytes, val: V)

  function Label(f: Field<Syntax>): Lexeme {
    Lexeme(StringToken, f.text)
  }

  // ---------------------------------------------------------------- spelling

  function Spelling(x: Syntax): seq<Lexeme>
    decreases x
  {
    match x
    case Atom(l) => [l]
    case List(es) => [Mark(LBRACKET)] + SpellElems(es, 0) + [Mark(RBRACKET)]
    case Record(fs) => [Mark(LBRACE)] + SpellFields(fs, 0) + [Mark(RBRACE)]
  }

  function SpellElems(es: seq<Syntax>, i: nat): seq<Lexeme>
    requires i <= |es|
    decreases es, |es| - i
  {
    if i == |es| then [] else Separator(i) + Spelling(es[i]) + SpellElems(es, i + 1)
  }

  function SpellFields(fs: seq<Field<Syntax>>, i: nat): seq<Lexeme>
    requires i <= |fs|
    decreases fs, |fs| - i
  {
    if i == |fs| then [] else Separator(i) + [Label(fs[i]), Mark(COLON)] + Spelling(fs[i].val) + SpellFields(fs, i + 1)
  }

  /** Atoms are scalars. */
  predicate Proper(x: Syntax)
    decreases x
  {
    match x
    case Atom(l) => IsScalarKind(l.kind)
    case List(es) => forall e | e in es :: Proper(e)
    case Record(fs) => forall f | f in fs :: Proper(f.val)
  }

  // ---------------------------------------------------------------- meaning

  /** Every atom denotes a scalar and every name can be decoded. */
  predicate Readable(cfg: Config, x: Syntax)
    decreases x
  {
    match x
    case Atom(l) => ScalarOf(cfg, Bare(l)).Denotes?
    case List(es) => ReadableElems(cfg, es, 0)
    case Record(fs) => ReadableFields(cfg, fs, 0)
  }

  predicate ReadableElems(cfg: Config, es: seq<Syntax>, i: nat)
    requires i <= |es|
    decreases es, |es| - i
  {
    i == |es| || (Readable(cfg, es[i]) && ReadableElems(cfg, es, i + 1))
  }

  predicate ReadableFields(cfg: Config, fs: seq<Field<Syntax>>, i: nat)
    requires i <= |fs|
    decreases fs, |fs| - i
  {
    i == |fs| || (NameOf(cfg, Bare(Label(fs[i]))).Name? && Readable(cfg, fs[i].val) && ReadableFields(cfg, fs, i + 1))
  }

  /** The value of a readable tree; a later member replaces an earlier one of the same name. */
  function Meaning(cfg: Config, x: Syntax): Value
    decreases x
  {
    match x
    case Atom(l) => Leaf(if ScalarOf(cfg, Bare(l)).Denotes? then ScalarOf(cfg, Bare(l)).scalar else Null)
    case List(es) => Arr(seq(|es|, i requires 0 <= i < |es| => Meaning(cfg, es[i])))
    case Record(fs) =>
      Obj(PutAll([], seq(|fs|, i requires 0 <= i < |fs| => Entry(FieldName(cfg, fs[i]), Meaning(cfg, fs[i].val)))))
  }

  function FieldName(cfg: Config, f: Field<Syntax>): Bytes {
    if NameOf(cfg, Bare(Label(f))).Name? then NameOf(cfg, Bare(Label(f))).name else []
  }

  function MeaningAll(cfg: Config, es: seq<Syntax>): (r: seq<Value>)
    ensures |r| == |es| && forall i | 0 <= i < |es| :: r[i] == Meaning(cfg, es[i])
  {
    seq(|es|, i requires 0 <= i < |es| => Meaning(cfg, es[i]))
  }

  function MeaningFields(cfg: Config, fs: seq<Field<Syntax>>): (r: seq<Entry<Value>>)
    ensures |r| == |fs| && forall i | 0 <= i < |fs| :: r[i] == Entry(FieldName(cfg, fs[i]), Meaning(cfg, fs[i].val))
  {
    seq(|fs|, i requires 0 <= i < |fs| => Entry(FieldName(cfg, fs[i]), Meaning(cfg, fs[i].val)))
  }

  lemma MeaningList(cfg: Config, es: seq<Syntax>)
    ensures Meaning(cfg, List(es)) == Arr(MeaningAll(cfg, es))
  {
  }

  lemma MeaningRecord(cfg: Config, fs: seq<Field<Syntax>>)
    ensures Meaning(cfg, Record(fs)) == Obj(PutAll([], MeaningFields(cfg, fs)))
  {
    hide PutAll, FieldName;
    var a := seq(|fs|, i requires 0 <= i < |fs| => Entry(FieldName(cfg, fs[i]), Meaning(cfg, fs[i].val)));
    assert a == MeaningFields(cfg, fs);
  }

  /** Nesting depth: the height of the node stack that reading needs. */
  function Height(x: Syntax): (d: nat)
    ensures d >= 1
    decreases x
  {
    match x
    case Atom(_) => 1
    case List(es) => 1 + ElemsHeight(es, 0)
    case Record(fs) => 1 + FieldsHeight(fs, 0)
  }

  function ElemsHeight(es: seq<Syntax>, i: nat): nat
    requires i <= |es|
    decreases es, |es| - i
  {
    if i == |es| then 0 else Max(Height(es[i]), ElemsHeight(es, i + 1))
  }

  function FieldsHeight(fs: seq<Field<Syntax>>, i: nat): nat
    requires i <= |fs|
    decreases fs, |fs| - i
  {
    if i == |fs| then 0 else Max(Height(fs[i].val), FieldsHeight(fs, i + 1))
  }

  // ---------------------------------------------------------------- the same tree without comments

  function AsForm(x: Syntax): Form
    decreases x
  {
    match x
    case Atom(l) => Word([], l)
    case List(es) => Sequence([], AsParts(es, 0))
    case Record(fs) => Mapping([], AsBindings(fs, 0), if fs == [] then Some([]) else None)
  }

  function AsParts(es: seq<Syntax>, i: nat): (ps: seq<Part>)
    requires i <= |es|
    ensures |ps| == |es| - i
    decreases es, |es| - i
  {
    if i == |es| then [] else [Part(AsForm(es[i]), [])] + AsParts(es, i + 1)
  }

  function AsBindings(fs: seq<Field<Syntax>>, i: nat): (bs: seq<Binding>)
    requires i <= |fs|
    ensures |bs| == |fs| - i
    decreases fs, |fs| - i
  {
    if i == |fs| then []
    else
      [Binding([], Label(fs[i]), AsForm(fs[i].val), [], Punct(if i + 1 == |fs| then ObjectEnd else ArraySeparator))]
      + AsBindings(fs, i + 1)
  }

  /** The form of a tree is written like it, is as deep and means the same. */
  ghost predicate Matches(cfg: Config, x: Syntax) {
    var y := AsForm(x);
    && Written(y) == Signs(Spelling(x)) && Forms.Proper(cfg, y) && !y.Missing?
    && Forms.Readable(cfg, y) == Readable(cfg, x)
    && Forms.Meaning(cfg, y) == Meaning(cfg, x)
    && Forms.Height(y) == Height(x)
  }

  lemma {:induction false} FormMatches(cfg: Config, x: Syntax)
    requires Proper(x)
    ensures Matches(cfg, x)
    decreases x, 2
  {
    match x
    case Atom(l) => WordMatches(cfg, l);
    case List(es) => ListMatches(cfg, es);
    case Record(fs) => RecordMatches(cfg, fs);
  }

  lemma WordMatches(cfg: Config, l: Lexeme)
    requires IsScalarKind(l.kind)
    ensures Matches(cfg, Atom(l))
  {
    hide ScalarOf;
  }

  lemma SignsConcat(a: seq<Lexeme>, b: seq<Lexeme>)
    ensures Signs(a + b) == Signs(a) + Signs(b)
  {
    hide Sign;
  }

  lemma SignsOfOne(l: Lexeme)
    ensures Signs([l]) == [Sign(l)]
  {
    hide Sign;
  }

  lemma SignsConcat3(a: seq<Lexeme>, b: seq<Lexeme>, c: seq<Lexeme>)
    ensures Signs(a + b + c) == Signs(a) + (Signs(b) + Signs(c))
  {
    hide Sign;
  }

  /** The lists of elements, from element `i` on. */
  ghost predicate PartsMatch(cfg: Config, es: seq<Syntax>, i: nat)
    requires i <= |es|
  {
    var ps := AsParts(es, i);
    && Forms.ProperParts(cfg, ps)
    && Forms.ReadableParts(cfg, ps) == ReadableElems(cfg, es, i)
    && Forms.MeaningParts(cfg, ps) == MeaningAll(cfg, es)[i..]
    && Forms.PartsHeight(ps) == ElemsHeight(es, i)
    && Signs(SpellElems(es, i)) + [Punct(ArrayEnd)] ==
       if i == |es| then [Punct(ArrayEnd)] else Signs(Separator(i)) + WrittenParts(ps)
  }

  lemma {:induction false} ElementsMatch(cfg: Config, es: seq<Syntax>, i: nat)
    requires i <= |es| && forall e | e in es :: Proper(e)
    ensures PartsMatch(cfg, es, i)
    decreases es, |es| - i
  {
    hide Matches, PartsMatch, Proper;
    if i == |es| {
      NoElements(cfg, es);
    } else {
      FormMatches(cfg, es[i]);
      ElementsMatch(cfg, es, i + 1);
      OneMoreElement(cfg, es, i);
    }
  }

  lemma NoElements(cfg: Config, es: seq<Syntax>)
    ensures PartsMatch(cfg, es, |es|)
  {
    hide Meaning;
    NoParts(cfg);
    assert Signs([]) + [Punct(ArrayEnd)] == [Punct(ArrayEnd)];
  }

  lemma OneMoreElement(cfg: Config, es: seq<Syntax>, i: nat)
    requires i < |es| && Matches(cfg, es[i]) && PartsMatch(cfg, es, i + 1)
    ensures PartsMatch(cfg, es, i)
  {
    hide Spelling, AsForm, Forms.Proper, Forms.ProperParts, Forms.Readable, Forms.ReadableParts, Written, WrittenParts,
      Forms.Meaning, Forms.MeaningParts, Readable, Forms.Height, Forms.PartsHeight, Meaning, MeaningAll, Height, Signs,
      Sign, SpellElems;
    var ps := AsParts(es, i);
    assert ps[1..] == AsParts(es, i + 1);
    PartsStep(cfg, ps);
    assert MeaningAll(cfg, es)[i..] == [Meaning(cfg, es[i])] + MeaningAll(cfg, es)[i + 1..];
    NoComments();
    StopOfParts(cfg, es, i);
    SpelledElement(es, i);
    var after := [Punct(PartStop(ps))] + WrittenParts(ps[1..]);
    assert [] + after == after;
  }

  lemma SpelledElement(es: seq<Syntax>, i: nat)
    requires i < |es|
    ensures Signs(SpellElems(es, i)) + [Punct(ArrayEnd)] ==
            Signs(Separator(i)) + (Signs(Spelling(es[i])) + (Signs(SpellElems(es, i + 1)) + [Punct(ArrayEnd)]))
  {
    hide Spelling, Signs, Separator;
    SignsConcat3(Separator(i), Spelling(es[i]), SpellElems(es, i + 1));
    RegroupThree(Signs(Separator(i)), Signs(Spelling(es[i])), Signs(SpellElems(es, i + 1)), [Punct(ArrayEnd)]);
  }

  lemma StopOfParts(cfg: Config, es: seq<Syntax>, i: nat)
    requires i < |es| && PartsMatch(cfg, es, i + 1)
    ensures Signs(SpellElems(es, i + 1)) + [Punct(ArrayEnd)] ==
            [Punct(PartStop(AsParts(es, i)))] + WrittenParts(AsParts(es, i + 1))
  {
    hide Spelling, AsForm, Forms.ProperParts, Forms.ReadableParts, WrittenParts, Forms.MeaningParts, Forms.PartsHeight,
      MeaningAll, Signs, SpellElems, ReadableElems, ElemsHeight;
    if i + 1 == |es| {
      NoParts(cfg);
      assert AsParts(es, i + 1) == [];
    } else {
      SignsOfOne(Mark(COMMA));
    }
  }

  lemma {:induction false} ListMatches(cfg: Config, es: seq<Syntax>)
    requires forall e | e in es :: Proper(e)
    ensures Matches(cfg, List(es))
    decreases es, |es| + 1
  {
    hide *;
    ElementsMatch(cfg, es, 0);
    ListForm(es);
    ListIsWritten(cfg, es);
    ListMeans(cfg, es);
    MatchesIs(cfg, List(es));
  }

  lemma MatchesIs(cfg: Config, x: Syntax)
    requires var y := AsForm(x);
             && Written(y) == Signs(Spelling(x)) && Forms.Proper(cfg, y) && !y.Missing?
             && Forms.Readable(cfg, y) == Readable(cfg, x)
             && Forms.Meaning(cfg, y) == Meaning(cfg, x)
             && Forms.Height(y) == Height(x)
    ensures Matches(cfg, x)
  {
    hide Written, Signs, Spelling, Forms.Proper, Forms.Readable, Readable, Forms.Meaning, Meaning, Forms.Height, Height,
      AsForm;
  }

  lemma ListIsWritten(cfg: Config, es: seq<Syntax>)
    requires PartsMatch(cfg, es, 0)
    ensures Written(Sequence([], AsParts(es, 0))) == Signs(Spelling(List(es)))
  {
    hide SpellElems, Forms.ProperParts, Forms.ReadableParts, WrittenParts, Forms.MeaningParts, ReadableElems,
      Forms.PartsHeight, ElemsHeight, MeaningAll, Signs, AsParts;
    ListForm(es);
    SignsConcat3([Mark(LBRACKET)], SpellElems(es, 0), [Mark(RBRACKET)]);
    SignsOfOne(Mark(LBRACKET));
    SignsOfOne(Mark(RBRACKET));
    NoneInFront(es);
    var body := if es == [] then [Punct(ArrayEnd)] else WrittenParts(AsParts(es, 0));
    assert Signs(SpellElems(es, 0)) + [Punct(ArrayEnd)] == body;
    assert [] + ([Punct(ArrayBegin)] + body) == [Punct(ArrayBegin)] + body;
  }

  lemma NoneInFront(es: seq<Syntax>)
    ensures Signs(Separator(0)) + WrittenParts(AsParts(es, 0)) == WrittenParts(AsParts(es, 0))
  {
    hide WrittenParts, AsParts;
  }

  lemma ListMeans(cfg: Config, es: seq<Syntax>)
    requires PartsMatch(cfg, es, 0) && AsParts(es, 0) != [Part(Missing([]), [])]
    ensures var y := Sequence([], AsParts(es, 0));
            && Forms.Proper(cfg, y) && Forms.Readable(cfg, y) == Readable(cfg, List(es))
            && Forms.Meaning(cfg, y) == Meaning(cfg, List(es)) && Forms.Height(y) == Height(List(es))
  {
    hide SpellElems, Forms.ProperParts, Forms.ReadableParts, WrittenParts, Forms.MeaningParts, ReadableElems,
      Forms.PartsHeight, ElemsHeight, MeaningAll, Signs, AsParts;
    MeaningList(cfg, es);
    assert MeaningAll(cfg, es)[0..] == MeaningAll(cfg, es);
    NoComments();
  }

  lemma ListForm(es: seq<Syntax>)
    ensures AsForm(List(es)) == Sequence([], AsParts(es, 0))
    ensures AsParts(es, 0) != [Part(Missing([]), [])] && (AsParts(es, 0) == [] <==> es == [])
  {
    if es != [] {
      assert AsParts(es, 0)[0] == Part(AsForm(es[0]), []) && !AsForm(es[0]).Missing?;
    }
  }

  /** The lists of members, from member `i` on. */
  ghost predicate BindingsMatch(cfg: Config, fs: seq<Field<Syntax>>, i: nat)
    requires i <= |fs|
  {
    var bs := AsBindings(fs, i);
    && (i < |fs| ==> forall last :: Forms.ProperBindings(cfg, last, bs, None))
    && Forms.ReadableBindings(cfg, bs) == ReadableFields(cfg, fs, i)
    && Forms.MeaningBindings(cfg, bs) == MeaningFields(cfg, fs)[i..]
    && Forms.BindingsHeight(bs) == FieldsHeight(fs, i)
    && Signs(SpellFields(fs, i)) + [Punct(ObjectEnd)] ==
       if i == |fs| then [Punct(ObjectEnd)] else Signs(Separator(i)) + WrittenBindings(bs)
  }

  lemma {:induction false} FieldsMatch(cfg: Config, fs: seq<Field<Syntax>>, i: nat)
    requires i <= |fs| && forall f | f in fs :: Proper(f.val)
    ensures BindingsMatch(cfg, fs, i)
    decreases fs, |fs| - i
  {
    hide Matches, BindingsMatch, Proper;
    if i == |fs| {
      NoFields(cfg, fs);
    } else {
      assert fs[i] in fs;
      FormMatches(cfg, fs[i].val);
      FieldsMatch(cfg, fs, i + 1);
      OneMoreField(cfg, fs, i);
    }
  }

  lemma NoFields(cfg: Config, fs: seq<Field<Syntax>>)
    ensures BindingsMatch(cfg, fs, |fs|)
  {
    hide Meaning, FieldName;
    NoBindings(cfg, [], None);
    assert Signs([]) + [Punct(ObjectEnd)] == [Punct(ObjectEnd)];
  }

  lemma OneMoreField(cfg: Config, fs: seq<Field<Syntax>>, i: nat)
    requires i < |fs| && Matches(cfg, fs[i].val) && BindingsMatch(cfg, fs, i + 1)
    ensures BindingsMatch(cfg, fs, i)
  {
    hide Spelling, AsForm, Forms.Proper, Forms.ProperBindings, Forms.Readable, Forms.ReadableBindings, Written,
      WrittenBindings, Forms.Meaning, Forms.MeaningBindings, Readable, Forms.Height, Forms.BindingsHeight, Meaning,
      MeaningFields, Height, Signs, Sign, NameOf, SpellFields, Separator;
    var bs := AsBindings(fs, i);
    assert bs[1..] == AsBindings(fs, i + 1);
    SpelledField(fs, i);
    StopOfBindings(cfg, fs, i);
    assert MeaningFields(cfg, fs)[i..] ==
           [Entry(FieldName(cfg, fs[i]), Meaning(cfg, fs[i].val))] + MeaningFields(cfg, fs)[i + 1..];
    NoComments();
    forall last ensures Forms.ProperBindings(cfg, last, bs, None) {
      BindingsStep(cfg, last, bs, None);
      StopIsSign(fs, i);
    }
    BindingsStep(cfg, [], bs, None);
    OneWritten(bs, Signs(SpellFields(fs, i + 1)) + [Punct(ObjectEnd)]);
    Regroup5(Signs(Separator(i)), [Label(fs[i]), Punct(MemberSeparator)], Written(AsForm(fs[i].val)),
             Signs(SpellFields(fs, i + 1)), [Punct(ObjectEnd)], []);
  }

  lemma StopIsSign(fs: seq<Field<Syntax>>, i: nat)
    requires i < |fs|
    ensures var stop := AsBindings(fs, i)[0].stop;
            && Sign(stop) == stop && stop.kind != Comment
            && stop.kind == if i + 1 == |fs| then ObjectEnd else ArraySeparator
  {
    hide AsForm;
  }

  lemma SpelledField(fs: seq<Field<Syntax>>, i: nat)
    requires i < |fs|
    ensures Signs(SpellFields(fs, i)) ==
            Signs(Separator(i)) + ([Label(fs[i]), Punct(MemberSeparator)]
            + (Signs(Spelling(fs[i].val)) + Signs(SpellFields(fs, i + 1))))
  {
    hide Spelling, Signs, Separator;
    SignsConcat3(Separator(i) + [Label(fs[i]), Mark(COLON)], Spelling(fs[i].val), SpellFields(fs, i + 1));
    SignsConcat(Separator(i), [Label(fs[i]), Mark(COLON)]);
    assert Signs([Label(fs[i]), Mark(COLON)]) == [Label(fs[i]), Punct(MemberSeparator)];
    Reassociate(Signs(Separator(i)), [Label(fs[i]), Punct(MemberSeparator)],
                Signs(Spelling(fs[i].val)) + Signs(SpellFields(fs, i + 1)));
  }

  lemma OneWritten(bs: seq<Binding>, tail: seq<Lexeme>)
    requires bs != [] && bs[0].lead == [] && bs[0].gap == [] && [bs[0].stop] + WrittenBindings(bs[1..]) == tail
    ensures WrittenBindings(bs) == [bs[0].name, Punct(MemberSeparator)] + (Written(bs[0].val) + tail)
  {
    hide Written;
    assert [] + tail == tail;
  }

  lemma StopOfBindings(cfg: Config, fs: seq<Field<Syntax>>, i: nat)
    requires i < |fs| && BindingsMatch(cfg, fs, i + 1)
    ensures Signs(SpellFields(fs, i + 1)) + [Punct(ObjectEnd)] ==
            [AsBindings(fs, i)[0].stop] + WrittenBindings(AsBindings(fs, i + 1))
  {
    hide Spelling, AsForm, Forms.ProperBindings, Forms.ReadableBindings, WrittenBindings, Forms.MeaningBindings,
      Forms.BindingsHeight, MeaningFields, Signs, SpellFields;
    if i + 1 == |fs| {
      NoBindings(cfg, [], None);
      assert AsBindings(fs, i + 1) == [];
    } else {
      SignsOfOne(Mark(COMMA));
    }
  }

  lemma {:induction false} RecordMatches(cfg: Config, fs: seq<Field<Syntax>>)
    requires forall f | f in fs :: Proper(f.val)
    ensures Matches(cfg, Record(fs))
    decreases fs, |fs| + 1
  {
    hide *;
    FieldsMatch(cfg, fs, 0);
    RecordForm(cfg, fs);
    RecordIsWritten(cfg, fs);
    RecordMeans(cfg, fs);
    MatchesIs(cfg, Record(fs));
  }

  lemma RecordIsWritten(cfg: Config, fs: seq<Field<Syntax>>)
    requires BindingsMatch(cfg, fs, 0)
    ensures Written(Mapping([], AsBindings(fs, 0), if fs == [] then Some([]) else None)) == Signs(Spelling(Record(fs)))
  {
    hide SpellFields, Forms.ProperBindings, Forms.ReadableBindings, WrittenBindings, Forms.MeaningBindings,
      ReadableFields, Forms.BindingsHeight, FieldsHeight, MeaningFields, Signs, WrittenEnd, BindingsMatch, AsBindings;
    var end := if fs == [] then Some([]) else None;
    RecordEnds(cfg, fs, end);
    SignsConcat3([Mark(LBRACE)], SpellFields(fs, 0), [Mark(RBRACE)]);
    SignsOfOne(Mark(LBRACE));
    SignsOfOne(Mark(RBRACE));
    var body := WrittenBindings(AsBindings(fs, 0)) + WrittenEnd(end);
    assert [] + ([Punct(ObjectBegin)] + body) == [Punct(ObjectBegin)] + body;
  }

  lemma RecordMeans(cfg: Config, fs: seq<Field<Syntax>>)
    requires BindingsMatch(cfg, fs, 0)
    ensures var y := Mapping([], AsBindings(fs, 0), if fs == [] then Some([]) else None);
            && Forms.Proper(cfg, y) && Forms.Readable(cfg, y) == Readable(cfg, Record(fs))
            && Forms.Meaning(cfg, y) == Meaning(cfg, Record(fs)) && Forms.Height(y) == Height(Record(fs))
  {
    hide SpellFields, Forms.ProperBindings, Forms.ReadableBindings, WrittenBindings, Forms.MeaningBindings,
      ReadableFields, Forms.BindingsHeight, FieldsHeight, MeaningFields, Signs, PutAll, AsBindings;
    RecordEnds(cfg, fs, if fs == [] then Some([]) else None);
    MeaningRecord(cfg, fs);
    assert MeaningFields(cfg, fs)[0..] == MeaningFields(cfg, fs);
    NoComments();
  }

  /** The brace is written either at the beginning or after the last member. */
  lemma RecordEnds(cfg: Config, fs: seq<Field<Syntax>>, end: Option<Comments>)
    requires BindingsMatch(cfg, fs, 0) && end == if fs == [] then Some([]) else None
    ensures WrittenBindings(AsBindings(fs, 0)) + WrittenEnd(end) == Signs(SpellFields(fs, 0)) + [Punct(ObjectEnd)]
    ensures Forms.ProperBindings(cfg, [], AsBindings(fs, 0), end)
  {
    hide Signs, SpellFields, Forms.ReadableBindings, Forms.MeaningBindings, ReadableFields, MeaningFields,
      Forms.BindingsHeight, FieldsHeight, WrittenBindings, Forms.ProperBindings, WrittenEnd;
    RecordForm(cfg, fs);
    if fs != [] {
      assert Signs(Separator(0)) + WrittenBindings(AsBindings(fs, 0)) == WrittenBindings(AsBindings(fs, 0));
    }
  }

  lemma RecordForm(cfg: Config, fs: seq<Field<Syntax>>)
    ensures AsForm(Record(fs)) == Mapping([], AsBindings(fs, 0), if fs == [] then Some([]) else None)
    ensures AsBindings(fs, 0) == [] <==> fs == []
    ensures AreComments([]) && Forms.ProperBindings(cfg, [], [], Some([]))
    ensures WrittenEnd(None) == [] && WrittenEnd(Some([])) == [Punct(ObjectEnd)] && WrittenBindings([]) == []
  {
  }

  // ---------------------------------------------------------------- documents

  /**
   * A document that is spelled like a tree is accepted exactly when every scalar and name in
   * the tree can be decoded and the tree is at most 1000 deep, and then it is read as the
   * meaning of the tree.
   */
  lemma ReadsSpelling(cfg: Config, t: Bytes, root: Node, x: Syntax)
    requires Proper(x) && Lex(t) == Spelling(x) && (cfg.strictRoot ==> !x.Atom?)
    ensures var p := Parse(cfg, t, root);
            && (p.status == Ok <==> Readable(cfg, x) && Height(x) <= STACK_LIMIT)
            && (Readable(cfg, x) && p.status != Ok ==> p.status == Aborted)
            && (p.status == Ok ==> Strip(p.root) == Meaning(cfg, x) && p.errors == [])
  {
    hide Lex, Spelling, Meaning, Height, Proper, Readable, Parse, Forms.Meaning, Forms.Height, Forms.Readable,
      Forms.Proper, Written, Signs;
    FormMatches(cfg, x);
    assert Written(AsForm(x)) + [] == Written(AsForm(x));
    ReadsWritten(cfg, t, root, AsForm(x), []);
  }
}
