/** FastWriter: the compact text of a value, and the lexemes that text must consist of. */
module FastWriters {
  import opened Bytes
  import opened Seqs
  import opened StringCodec
  import opened Numbers
  import opened Lexer
  import opened Values

  const TRUE_TEXT: Bytes := [LOWER_T] + TRUE_TAIL
  const FALSE_TEXT: Bytes := [LOWER_F] + FALSE_TAIL
  const NULL_TEXT: Bytes := [LOWER_N] + NULL_TAIL

  /** Values the writers are modelled for: no doubles, integers in range, keys in map order. */
  ghost predicate Writable(v: Value) {
    match v
    case Leaf(Int(i)) => -MAX_INT64 - 1 <= i <= MAX_INT64
    case Leaf(UInt(u)) => u <= MAX_UINT64
    case Leaf(Real(_)) => false
    case Leaf(_) => true
    case Arr(es) => forall e | e in es :: Writable(e)
    case Obj(ms) => Ascending(ms) && forall m | m in ms :: Writable(m.val)
  }

  // ---------------------------------------------------------------- lexemes

  /** The token that a scalar is written as. Doubles are not modelled. */
  function ScalarLexeme(s: Scalar): Lexeme {
    match s
    case Null => Lexeme(NullToken, NULL_TEXT)
    case Bool(true) => Lexeme(TrueToken, TRUE_TEXT)
    case Bool(false) => Lexeme(FalseToken, FALSE_TEXT)
    case Int(i) => Lexeme(NumberToken, IntText(i))
    case UInt(u) => Lexeme(NumberToken, UIntText(u))
    case Real(_) => Lexeme(NumberToken, [])
    case Str(b) => Lexeme(StringToken, Quote(b))
  }

  /** The lexemes of a value, whatever white space a writer puts between them. */
  function Spell(v: Value): seq<Lexeme>
    decreases v
  {
    match v
    case Leaf(s) => [ScalarLexeme(s)]
    case Arr(es) => [Mark(LBRACKET)] + SpellElements(es, 0) + [Mark(RBRACKET)]
    case Obj(ms) => [Mark(LBRACE)] + SpellMembers(ms, 0) + [Mark(RBRACE)]
  }

  function SpellElements(es: seq<Value>, i: nat): seq<Lexeme>
    requires i <= |es|
    decreases es, |es| - i
  {
    if i == |es| then [] else Separator(i) + Spell(es[i]) + SpellElements(es, i + 1)
  }

  function SpellMembers(ms: seq<Entry<Value>>, i: nat): seq<Lexeme>
    requires i <= |ms|
    decreases ms, |ms| - i
  {
    if i == |ms| then []
    else
      Separator(i) + [Lexeme(StringToken, Quote(ms[i].key)), Mark(COLON)] + Spell(ms[i].val) + SpellMembers(ms, i + 1)
  }

  // ---------------------------------------------------------------- text

  /** The options of FastWriter. */
  datatype Options = Options(yaml: bool, dropNull: bool, omitLineFeed: bool)

  function ScalarText(o: Options, s: Scalar): Bytes {
    if s.Null? && o.dropNull then [] else ScalarLexeme(s).text
  }

  function ColonText(o: Options): Bytes {
    if o.yaml then [COLON, SPACE] else [COLON]
  }

  function CommaText(i: nat): Bytes {
    if i > 0 then [COMMA] else []
  }

  function FastText(o: Options, v: Value): Bytes
    decreases v
  {
    match v
    case Leaf(s) => ScalarText(o, s)
    case Arr(es) => [LBRACKET] + FastElements(o, es, 0) + [RBRACKET]
    case Obj(ms) => [LBRACE] + FastMembers(o, ms, 0) + [RBRACE]
  }

  /** The elements from `i` on, each after the first with its separator. */
  function FastElements(o: Options, es: seq<Value>, i: nat): Bytes
    requires i <= |es|
    decreases es, |es| - i
  {
    if i == |es| then [] else CommaText(i) + FastText(o, es[i]) + FastElements(o, es, i + 1)
  }

  function FastMembers(o: Options, ms: seq<Entry<Value>>, i: nat): Bytes
    requires i <= |ms|
    decreases ms, |ms| - i
  {
    if i == |ms| then []
    else CommaText(i) + Quote(ms[i].key) + ColonText(o) + FastText(o, ms[i].val) + FastMembers(o, ms, i + 1)
  }

  function FastDocument(o: Options, v: Value): Bytes {
    FastText(o, v) + if o.omitLineFeed then [] else [LF]
  }

  // ---------------------------------------------------------------- the writer as it runs

  /** The scalar branches of FastWriter::writeValue. */
  method ScalarToText(o: Options, s: Scalar) returns (r: Bytes)
    requires Writable(Leaf(s))
    ensures r == ScalarText(o, s)
  {
    match s
    case Null => r := if o.dropNull then [] else NULL_TEXT;
    case Bool(b) => r := if b then TRUE_TEXT else FALSE_TEXT;
    case Int(i) => r := IntValueToString(i as int64);
    case UInt(u) => r := UIntValueToString(u as uint64);
    case Str(b) => r := QuoteString(b);
  }

  /** In a map, looking a member name up finds the entry it came from. */
  lemma LookUp(ms: seq<Entry<Value>>, i: nat, default: Value)
    requires Ascending(ms) && i < |ms|
    ensures Get(ms, ms[i].key, default) == ms[i].val
  {
    KeyIrreflexive(ms[i].key);
  }

  class FastWriter {
    const options: Options
    var document: Bytes

    constructor (options: Options)
      ensures this.options == options && document == []
    {
      this.options := options;
      document := [];
    }

    method Write(root: Value) returns (r: Bytes)
      requires Writable(root)
      modifies this
      ensures r == document == FastDocument(options, root)
    {
      document := [];
      WriteValue(root);
      if !options.omitLineFeed {
        document := document + [LF];
      }
      r := document;
    }

    method WriteValue(value: Value)
      requires Writable(value)
      modifies this
      ensures document == old(document) + FastText(options, value)
      decreases value, 1
    {
      match value
      case Leaf(s) =>
        var r := ScalarToText(options, s);
        document := document + r;
      case Arr(es) =>
        WriteElements(es);
      case Obj(ms) =>
        WriteMembers(ms);
    }

    method WriteElements(es: seq<Value>)
      requires forall e | e in es :: Writable(e)
      modifies this
      ensures document == old(document) + FastText(options, Arr(es))
      decreases es
    {
      hide FastText, Writable;
      ghost var target := document + [LBRACKET] + FastElements(options, es, 0);
      document := document + [LBRACKET];
      var index := 0;
      while index < |es|
        invariant 0 <= index <= |es|
        invariant document + FastElements(options, es, index) == target
      {
        ghost var before := document;
        if index > 0 {
          document := document + [COMMA];
        }
        WriteValue(es[index]);
        assert document == before + CommaText(index) + FastText(options, es[index]);
        Regroup(before, CommaText(index), FastText(options, es[index]), FastElements(options, es, index + 1));
        index := index + 1;
      }
      assert document == target;
      document := document + [RBRACKET];
      ArrText(options, es);
      Regroup(old(document), [LBRACKET], FastElements(options, es, 0), [RBRACKET]);
    }

    method WriteMembers(ms: seq<Entry<Value>>)
      requires Ascending(ms) && forall m | m in ms :: Writable(m.val)
      modifies this
      ensures document == old(document) + FastText(options, Obj(ms))
      decreases ms
    {
      hide FastText, Writable, Quote, Get, Ascending;
      var members := KeysOf(ms);
      ghost var target := document + [LBRACE] + FastMembers(options, ms, 0);
      document := document + [LBRACE];
      var it := 0;
      while it < |members|
        invariant 0 <= it <= |members| == |ms|
        invariant document + FastMembers(options, ms, it) == target
      {
        var name := members[it];
        ghost var before := document;
        if it > 0 {
          document := document + [COMMA];
        }
        var quoted := QuoteString(name);
        document := document + quoted;
        document := document + if options.yaml then [COLON, SPACE] else [COLON];
        LookUp(ms, it, Leaf(Null));
        assert Get(ms, name, Leaf(Null)) == ms[it].val && ms[it] in ms;
        WriteValue(ms[it].val);
        assert document == before + CommaText(it) + Quote(name) + ColonText(options) + FastText(options, ms[it].val);
        Regroup5(before, CommaText(it), Quote(name), ColonText(options), FastText(options, ms[it].val),
                      FastMembers(options, ms, it + 1));
        it := it + 1;
      }
      assert document == target;
      document := document + [RBRACE];
      ObjText(options, ms);
      Regroup(old(document), [LBRACE], FastMembers(options, ms, 0), [RBRACE]);
    }
  }

  lemma ArrText(o: Options, es: seq<Value>)
    ensures FastText(o, Arr(es)) == [LBRACKET] + FastElements(o, es, 0) + [RBRACKET]
  {
  }

  lemma ObjText(o: Options, ms: seq<Entry<Value>>)
    ensures FastText(o, Obj(ms)) == [LBRACE] + FastMembers(o, ms, 0) + [RBRACE]
  {
  }
}
