/** Reading back what a writer wrote: any text that is lexed into the lexemes of a value. */
module RoundTrip {
  import opened Bytes
  import opened Utf8
  import opened StringCodec
  import opened StringTheorems
  import opened Numbers
  import opened Lexer
  import opened Values
  import opened ReaderSpec
  import opened FastWriters
  import opened FastTheorems
  import opened Syntaxes

  // ---------------------------------------------------------------- what comes back

  /** The reader re-tags integers and decodes strings that the writer cleaned. */
  function CanonScalar(s: Scalar): Scalar {
    match s
    case Int(i) => if i <= 0x7FFF_FFFF then Int(i) else UInt(i)
    case UInt(u) => if u <= 0x7FFF_FFFF then Int(u) else UInt(u)
    case Str(b) => Str(Clean(b))
    case _ => s
  }

  /** The value that reading `v`'s text gives: members are assigned in order under their cleaned names. */
  function Canon(v: Value): Value {
    match v
    case Leaf(s) => Leaf(CanonScalar(s))
    case Arr(es) => Arr(seq(|es|, i requires 0 <= i < |es| => Canon(es[i])))
    case Obj(ms) =>
      Obj(PutAll([], seq(|ms|, i requires 0 <= i < |ms| => Entry(Clean(ms[i].key), Canon(ms[i].val)))))
  }

  function CanonAll(es: seq<Value>): (r: seq<Value>)
    ensures |r| == |es| && forall i | 0 <= i < |es| :: r[i] == Canon(es[i])
  {
    seq(|es|, i requires 0 <= i < |es| => Canon(es[i]))
  }

  function CanonMembers(ms: seq<Entry<Value>>): (r: seq<Entry<Value>>)
    ensures |r| == |ms| && forall i | 0 <= i < |ms| :: r[i] == Entry(Clean(ms[i].key), Canon(ms[i].val))
  {
    seq(|ms|, i requires 0 <= i < |ms| => Entry(Clean(ms[i].key), Canon(ms[i].val)))
  }

  lemma CanonArr(es: seq<Value>)
    ensures Canon(Arr(es)) == Arr(CanonAll(es))
  {
  }

  lemma CanonObj(ms: seq<Entry<Value>>)
    ensures Canon(Obj(ms)) == Obj(PutAll([], CanonMembers(ms)))
  {
    hide PutAll;
    var a := seq(|ms|, i requires 0 <= i < |ms| => Entry(Clean(ms[i].key), Canon(ms[i].val)));
    assert a == CanonMembers(ms);
  }

  // ---------------------------------------------------------------- values as syntax trees

  /** How a value is written. */
  function SyntaxOf(v: Value): Syntax {
    match v
    case Leaf(s) => Atom(ScalarLexeme(s))
    case Arr(es) => List(seq(|es|, i requires 0 <= i < |es| => SyntaxOf(es[i])))
    case Obj(ms) => Record(seq(|ms|, i requires 0 <= i < |ms| => Field(Quote(ms[i].key), SyntaxOf(ms[i].val))))
  }

  function SyntaxAll(es: seq<Value>): (r: seq<Syntax>)
    ensures |r| == |es| && forall i | 0 <= i < |es| :: r[i] == SyntaxOf(es[i])
  {
    seq(|es|, i requires 0 <= i < |es| => SyntaxOf(es[i]))
  }

  function SyntaxMembers(ms: seq<Entry<Value>>): (r: seq<Field<Syntax>>)
    ensures |r| == |ms| && forall i | 0 <= i < |ms| :: r[i] == Field(Quote(ms[i].key), SyntaxOf(ms[i].val))
  {
    seq(|ms|, i requires 0 <= i < |ms| => Field(Quote(ms[i].key), SyntaxOf(ms[i].val)))
  }

  lemma SyntaxArr(es: seq<Value>)
    ensures SyntaxOf(Arr(es)) == List(SyntaxAll(es))
  {
  }

  lemma SyntaxObj(ms: seq<Entry<Value>>)
    ensures SyntaxOf(Obj(ms)) == Record(SyntaxMembers(ms))
  {
    hide Quote;
    var a := seq(|ms|, i requires 0 <= i < |ms| => Field(Quote(ms[i].key), SyntaxOf(ms[i].val)));
    assert a == SyntaxMembers(ms);
  }

  lemma {:induction false} SpellIsSpelling(v: Value)
    ensures Spell(v) == Spelling(SyntaxOf(v))
    decreases v, 1
  {
    hide Quote, SyntaxOf, ScalarLexeme, SpellElements, SpellMembers, SpellElems, SpellFields;
    match v
    case Leaf(s) => SyntaxLeaf(s);
    case Arr(es) =>
      SyntaxArr(es);
      SpellElementsIs(es, 0);
    case Obj(ms) =>
      SyntaxObj(ms);
      SpellMembersIs(ms, 0);
  }

  lemma SyntaxLeaf(s: Scalar)
    ensures SyntaxOf(Leaf(s)) == Atom(ScalarLexeme(s))
  {
  }

  lemma {:induction false} SpellElementsIs(es: seq<Value>, i: nat)
    requires i <= |es|
    ensures SpellElements(es, i) == SpellElems(SyntaxAll(es), i)
    decreases es, |es| - i
  {
    hide SyntaxOf, Spell, Spelling;
    if i < |es| {
      SpellIsSpelling(es[i]);
      SpellElementsIs(es, i + 1);
    }
  }

  lemma {:induction false} SpellMembersIs(ms: seq<Entry<Value>>, i: nat)
    requires i <= |ms|
    ensures SpellMembers(ms, i) == SpellFields(SyntaxMembers(ms), i)
    decreases ms, |ms| - i
  {
    hide SyntaxOf, Spell, Spelling, Quote;
    if i < |ms| {
      SpellIsSpelling(ms[i].val);
      SpellMembersIs(ms, i + 1);
    }
  }

  /** Every scalar token denotes the canonical form of the scalar it was written for. */
  lemma ScalarComesBack(cfg: Config, s: Scalar, tok: Token)
    requires Writable(Leaf(s)) && LexemeOf(tok) == ScalarLexeme(s)
    ensures ScalarOf(cfg, tok) == Denotes(CanonScalar(s))
    ensures tok.kind != ObjectBegin && tok.kind != ArrayBegin && tok.kind != Comment
  {
    hide Quote, IntText, UIntText, DecodeInteger, DecodeText, Clean;
    match s
    case Int(i) => IntegerRoundTrip(i);
    case UInt(u) =>
      IntegerRoundTrip(u);
      UIntIsInt(u);
    case Str(b) =>
      QuoteDecodes(b);
      QuoteShape(b);
    case _ =>
  }

  lemma UIntIsInt(u: nat)
    ensures IntText(u) == UIntText(u)
  {
  }

  /** The name of a member comes back cleaned. */
  lemma NameComesBack(cfg: Config, key: Bytes)
    ensures NameOf(cfg, Bare(Lexeme(StringToken, Quote(key)))) == Name(Clean(key))
  {
    hide Quote, DecodeText, Clean;
    QuoteDecodes(key);
    QuoteShape(key);
  }

  /** The tree of a value can be read, has the canonical value as its meaning, and is as deep as the value. */
  lemma {:induction false} TreeOfValue(cfg: Config, v: Value)
    requires Writable(v)
    ensures var x := SyntaxOf(v);
            Proper(x) && Readable(cfg, x) && Meaning(cfg, x) == Canon(v) && Height(x) == Depth(v)
    decreases v, 1
  {
    hide SyntaxOf, Canon, Meaning, ScalarLexeme, SyntaxAll, SyntaxMembers;
    match v
    case Leaf(s) =>
      SyntaxLeaf(s);
      LeafTree(cfg, s);
    case Arr(es) =>
      SyntaxArr(es);
      TreeOfElements(cfg, es, 0);
      ArrayTree(cfg, es);
    case Obj(ms) =>
      SyntaxObj(ms);
      TreeOfMembers(cfg, ms, 0);
      ObjectTree(cfg, ms);
  }

  lemma LeafTree(cfg: Config, s: Scalar)
    requires Writable(Leaf(s))
    ensures var x := Atom(ScalarLexeme(s)); Proper(x) && Readable(cfg, x) && Meaning(cfg, x) == Canon(Leaf(s))
  {
    hide ScalarOf, CanonScalar;
    ScalarComesBack(cfg, s, Bare(ScalarLexeme(s)));
  }

  lemma {:induction false} TreeOfElements(cfg: Config, es: seq<Value>, i: nat)
    requires i <= |es| && forall e | e in es :: Writable(e)
    ensures var xs := SyntaxAll(es);
            && ReadableElems(cfg, xs, i) && ElemsHeight(xs, i) == ElementsDepth(es, i)
            && forall k | i <= k < |es| :: Proper(xs[k]) && Meaning(cfg, xs[k]) == Canon(es[k])
    decreases es, |es| - i
  {
    hide SyntaxOf, Canon, Meaning, Proper, Readable, Height, Depth, Writable;
    if i < |es| {
      TreeOfValue(cfg, es[i]);
      TreeOfElements(cfg, es, i + 1);
    }
  }

  lemma {:induction false} TreeOfMembers(cfg: Config, ms: seq<Entry<Value>>, i: nat)
    requires i <= |ms| && forall m | m in ms :: Writable(m.val)
    ensures var xs := SyntaxMembers(ms);
            && ReadableFields(cfg, xs, i) && FieldsHeight(xs, i) == MembersDepth(ms, i)
            && forall k | i <= k < |ms| ::
                 Proper(xs[k].val) && Meaning(cfg, xs[k].val) == Canon(ms[k].val)
                     && FieldName(cfg, xs[k]) == Clean(ms[k].key)
    decreases ms, |ms| - i
  {
    hide SyntaxOf, Canon, Meaning, Proper, Readable, Height, Depth, Writable, NameOf, Quote, Clean;
    if i < |ms| {
      assert ms[i] in ms;
      TreeOfValue(cfg, ms[i].val);
      NameComesBack(cfg, ms[i].key);
      TreeOfMembers(cfg, ms, i + 1);
    }
  }

  lemma ArrayTree(cfg: Config, es: seq<Value>)
    requires forall k | 0 <= k < |es| :: Proper(SyntaxAll(es)[k]) && Meaning(cfg, SyntaxAll(es)[k]) == Canon(es[k])
    ensures Proper(List(SyntaxAll(es))) && Meaning(cfg, List(SyntaxAll(es))) == Canon(Arr(es))
  {
    hide Canon, Meaning, SyntaxOf;
    MeaningList(cfg, SyntaxAll(es));
    CanonArr(es);
    assert MeaningAll(cfg, SyntaxAll(es)) == CanonAll(es);
  }

  lemma ObjectTree(cfg: Config, ms: seq<Entry<Value>>)
    requires forall k | 0 <= k < |ms| ::
               var x := SyntaxMembers(ms)[k];
               Proper(x.val) && Meaning(cfg, x.val) == Canon(ms[k].val) && FieldName(cfg, x) == Clean(ms[k].key)
    ensures Proper(Record(SyntaxMembers(ms))) && Meaning(cfg, Record(SyntaxMembers(ms))) == Canon(Obj(ms))
  {
    hide Canon, Meaning, SyntaxOf, FieldName, Clean, PutAll, Quote;
    MeaningRecord(cfg, SyntaxMembers(ms));
    CanonObj(ms);
    assert MeaningFields(cfg, SyntaxMembers(ms)) == CanonMembers(ms);
  }

  // ---------------------------------------------------------------- whole documents

  /**
   * Any document whose lexemes are those of `v` is read back as `Canon(v)`, with no error, if
   * `v` is at most 1000 deep; otherwise the reader aborts.
   */
  lemma ReadsBack(cfg: Config, t: Bytes, root: Node, v: Value)
    requires Writable(v) && Lex(t) == Spell(v)
    requires cfg.strictRoot ==> !v.Leaf?
    ensures var p := Parse(cfg, t, root);
            if Depth(v) <= 1000 then p.status == Ok && Strip(p.root) == Canon(v) && p.errors == []
            else p.status == Aborted
  {
    hide Lex, Parse, Spell, Spelling, Canon, Meaning, Depth, Height, Writable, Proper, Readable;
    SpellIsSpelling(v);
    TreeOfValue(cfg, v);
    ReadsSpelling(cfg, t, root, SyntaxOf(v));
  }

  /** The default reader accepts everything FastWriter writes, for every real-free value up to 1000 deep. */
  lemma FastRoundTrip(cfg: Config, o: Options, v: Value, root: Node)
    requires Writable(v) && !o.dropNull && (cfg.strictRoot ==> !v.Leaf?)
    ensures var p := Parse(cfg, FastDocument(o, v), root);
            if Depth(v) <= 1000 then p.status == Ok && Strip(p.root) == Canon(v) && p.errors == []
            else p.status == Aborted
  {
    hide Parse, FastDocument, Depth, Canon, Writable, Spell, Lex;
    FastLexes(o, v);
    ReadsBack(cfg, FastDocument(o, v), root, v);
  }

  // ---------------------------------------------------------------- when it is the same value

  function RetagScalar(s: Scalar): Scalar {
    match s
    case Int(i) => if i <= 0x7FFF_FFFF then Int(i) else UInt(i)
    case UInt(u) => if u <= 0x7FFF_FFFF then Int(u) else UInt(u)
    case _ => s
  }

  /** `v` with its integers re-tagged: signed up to 2^31-1, unsigned above. */
  function Retag(v: Value): Value {
    match v
    case Leaf(s) => Leaf(RetagScalar(s))
    case Arr(es) => Arr(seq(|es|, i requires 0 <= i < |es| => Retag(es[i])))
    case Obj(ms) => Obj(seq(|ms|, i requires 0 <= i < |ms| => Entry(ms[i].key, Retag(ms[i].val))))
  }

  /** Every string and every key in the tree is valid UTF-8. */
  ghost predicate AllValid(v: Value) {
    match v
    case Leaf(Str(b)) => Valid(b)
    case Leaf(_) => true
    case Arr(es) => forall e | e in es :: AllValid(e)
    case Obj(ms) => forall m | m in ms :: Valid(m.key) && AllValid(m.val)
  }

  /** The round trip gives the same value, up to integer tags, exactly when all text in it is valid UTF-8. */
  lemma {:induction false} SameIffValid(v: Value)
    requires Writable(v)
    ensures Canon(v) == Retag(v) <==> AllValid(v)
    decreases v
  {
    hide Valid, Clean, PutAll;
    match v
    case Leaf(s) =>
      if s.Str? {
        CleanIffValid(s.s);
      }
    case Arr(es) =>
      forall e | e in es ensures Canon(e) == Retag(e) <==> AllValid(e) {
        SameIffValid(e);
      }
      SameElements(es);
    case Obj(ms) =>
      forall m | m in ms ensures Canon(m.val) == Retag(m.val) <==> AllValid(m.val) {
        SameIffValid(m.val);
      }
      SameMembers(ms);
  }

  lemma SameElements(es: seq<Value>)
    requires forall e | e in es :: Canon(e) == Retag(e) <==> AllValid(e)
    ensures Canon(Arr(es)) == Retag(Arr(es)) <==> AllValid(Arr(es))
  {
    var a := CanonAll(es);
    var b := Retag(Arr(es)).elems;
    CanonArr(es);
    if a == b {
      forall e | e in es ensures AllValid(e) {
        var i :| 0 <= i < |es| && es[i] == e;
        assert a[i] == b[i];
      }
    }
    if AllValid(Arr(es)) {
      forall i | 0 <= i < |es| ensures a[i] == b[i] {
        assert es[i] in es;
      }
    }
  }

  lemma SameMembers(ms: seq<Entry<Value>>)
    requires Ascending(ms)
    requires forall m | m in ms :: Canon(m.val) == Retag(m.val) <==> AllValid(m.val)
    ensures Canon(Obj(ms)) == Retag(Obj(ms)) <==> AllValid(Obj(ms))
  {
    hide Valid, Clean, PutAll, Canon, Retag;
    CanonObj(ms);
    RetagObj(ms);
    var a, b := CanonMembers(ms), RetagMembers(ms);
    if PutAll([], a) == b {
      KeysAreValid(ms);
      CanonIsAscending(ms);
      PutAllAscending(a);
      forall m | m in ms ensures Valid(m.key) && AllValid(m.val) {
        var i :| 0 <= i < |ms| && ms[i] == m;
        assert a[i] == b[i];
      }
    }
    if AllValid(Obj(ms)) {
      forall i | 0 <= i < |ms| ensures a[i] == b[i] && Valid(ms[i].key) {
        assert ms[i] in ms;
        CleanIffValid(ms[i].key);
      }
      CanonIsAscending(ms);
      PutAllAscending(a);
    }
  }

  function RetagMembers(ms: seq<Entry<Value>>): (r: seq<Entry<Value>>)
    ensures |r| == |ms| && forall i | 0 <= i < |ms| :: r[i] == Entry(ms[i].key, Retag(ms[i].val))
  {
    seq(|ms|, i requires 0 <= i < |ms| => Entry(ms[i].key, Retag(ms[i].val)))
  }

  lemma RetagObj(ms: seq<Entry<Value>>)
    ensures Retag(Obj(ms)) == Obj(RetagMembers(ms))
  {
    var a := seq(|ms|, i requires 0 <= i < |ms| => Entry(ms[i].key, Retag(ms[i].val)));
    assert a == RetagMembers(ms);
  }

  lemma CanonIsAscending(ms: seq<Entry<Value>>)
    requires Ascending(ms) && forall i | 0 <= i < |ms| :: Valid(ms[i].key)
    ensures Ascending(CanonMembers(ms))
  {
    hide Valid, Clean, Canon, KeyLess;
    var a := CanonMembers(ms);
    forall i | 0 <= i < |ms| ensures a[i].key == ms[i].key {
      CleanIffValid(ms[i].key);
    }
  }

  /** If the keys survive, they were valid. */
  lemma KeysAreValid(ms: seq<Entry<Value>>)
    requires PutAll([], CanonMembers(ms)) == RetagMembers(ms)
    ensures forall i | 0 <= i < |ms| :: Valid(ms[i].key)
  {
    hide Valid, Clean, PutAll, Canon, Retag;
    var a := CanonMembers(ms);
    PutAllKeys(a);
    forall i | 0 <= i < |ms| ensures Valid(ms[i].key) {
      assert KeysOf(RetagMembers(ms))[i] == ms[i].key;
      assert ms[i].key in KeysOf(a);
      var j :| 0 <= j < |a| && KeysOf(a)[j] == ms[i].key;
      CleanIffValid(ms[j].key);
    }
  }

  // ---------------------------------------------------------------- writing it again

  lemma RetagText(o: Options, s: Scalar)
    ensures ScalarText(o, RetagScalar(s)) == ScalarText(o, s)
  {
    hide UIntText;
  }

  /** Re-tagging does not change the text. */
  lemma {:induction false} RetagSameText(o: Options, v: Value)
    ensures FastText(o, Retag(v)) == FastText(o, v)
    decreases v, 1
  {
    match v
    case Leaf(s) => RetagText(o, s);
    case Arr(es) => RetagElements(o, es, 0);
    case Obj(ms) =>
      RetagObj(ms);
      RetagMemberTexts(o, ms, 0);
  }

  lemma {:induction false} RetagElements(o: Options, es: seq<Value>, i: nat)
    requires i <= |es|
    ensures FastElements(o, Retag(Arr(es)).elems, i) == FastElements(o, es, i)
    decreases es, |es| - i
  {
    hide FastText;
    if i < |es| {
      RetagSameText(o, es[i]);
      RetagElements(o, es, i + 1);
    }
  }

  lemma {:induction false} RetagMemberTexts(o: Options, ms: seq<Entry<Value>>, i: nat)
    requires i <= |ms|
    ensures FastMembers(o, RetagMembers(ms), i) == FastMembers(o, ms, i)
    decreases ms, |ms| - i
  {
    hide FastText;
    if i < |ms| {
      RetagSameText(o, ms[i].val);
      RetagMemberTexts(o, ms, i + 1);
    }
  }

  /** What was read back is written as the same text again. */
  lemma RewriteIsStable(cfg: Config, o: Options, v: Value, root: Node)
    requires Writable(v) && AllValid(v) && Depth(v) <= 1000
    requires !o.dropNull && (cfg.strictRoot ==> !v.Leaf?)
    ensures var p := Parse(cfg, FastDocument(o, v), root);
            && p.status == Ok && p.errors == []
            && Strip(p.root) == Retag(v)
            && FastDocument(o, Strip(p.root)) == FastDocument(o, v)
  {
    hide Parse, FastText, Canon, Retag, Depth, Writable, AllValid;
    FastRoundTrip(cfg, o, v, root);
    SameIffValid(v);
    RetagSameText(o, v);
  }

  // ---------------------------------------------------------------- numeric names

  /** With allowNumericKeys, an unquoted integer in canonical form names the member with its own text. */
  lemma NumericName(cfg: Config, i: int)
    requires cfg.allowNumericKeys && -MAX_INT64 - 1 <= i <= MAX_UINT64
    ensures NameOf(cfg, Bare(Lexeme(NumberToken, IntText(i)))) == Name(IntText(i))
  {
    hide DecodeInteger, UIntText;
    IntegerRoundTrip(i);
  }
}
