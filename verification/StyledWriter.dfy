/**
 * BuiltStyledStreamWriter: the pretty writer, whose output depends on an indentation string,
 * a flag that says whether the current line is already indented, and a scratch list of child
 * texts. Values without comments; emitUTF8 off.
 */
module StyledWriters {
  import opened Bytes
  import opened Seqs
  import opened StringCodec
  import opened Values
  import opened FastWriters

  const RIGHT_MARGIN: nat := 74

  /** `allComments` is CommentStyle::All, which also makes every array multi-line. */
  datatype Style = Style(indentation: Bytes, colon: Bytes, nullSymbol: Bytes, ending: Bytes, allComments: bool)

  function U32(n: nat): nat {
    n % 0x1_0000_0000
  }

  // ---------------------------------------------------------------- what is written

  /** Scalars and empty containers, which are written on the spot. */
  predicate IsShort(v: Value) {
    match v
    case Leaf(_) => true
    case Arr(es) => es == []
    case Obj(ms) => ms == []
  }

  function ShortText(st: Style, v: Value): Bytes {
    match v
    case Leaf(s) => if s.Null? then st.nullSymbol else ScalarLexeme(s).text
    case Arr(_) => [LBRACKET, RBRACKET]
    case Obj(_) => [LBRACE, RBRACE]
  }

  /** The line length that isMultilineArray has added up after `n` children, in 32 bits. */
  function LineLength(st: Style, es: seq<Value>, n: nat): nat
    requires n <= |es| && es != []
  {
    if n == 0 then U32(4 + (|es| - 1) * 2)
    else U32(LineLength(st, es, n - 1) + |ShortText(st, es[n - 1])|)
  }

  predicate NoneNested(es: seq<Value>) {
    forall i | 0 <= i < |es| :: IsShort(es[i])
  }

  /** Whether a non-empty array goes on a single line. */
  predicate SingleLine(st: Style, es: seq<Value>)
    requires es != []
  {
    !st.allComments && U32(|es| * 3) < RIGHT_MARGIN && NoneNested(es) && LineLength(st, es, |es|) < RIGHT_MARGIN
  }

  function IndentText(st: Style, ind: Bytes): Bytes {
    if st.indentation == [] then [] else [LF] + ind
  }

  /** The optional blank of single-line arrays. */
  function Blank(st: Style): Bytes {
    if st.indentation == [] then [] else [SPACE]
  }

  /** What the writer prints for `v` when the indentation is `ind`. */
  function Pretty(st: Style, v: Value, ind: Bytes, indented: bool): Bytes
    decreases v
  {
    if IsShort(v) then ShortText(st, v)
    else if v.Arr? && SingleLine(st, v.elems) then
      [LBRACKET] + Blank(st) + JoinElements(st, v.elems, 0) + Blank(st) + [RBRACKET]
    else
      var front := if indented then [] else IndentText(st, ind);
      if v.Arr? then
        front + [LBRACKET] + PrettyElements(st, v.elems, 0, ind + st.indentation) + IndentText(st, ind) + [RBRACKET]
      else
        front + [LBRACE] + PrettyMembers(st, v.members, 0, ind + st.indentation) + IndentText(st, ind) + [RBRACE]
  }

  /** Elements on one line, from `i` on. */
  function JoinElements(st: Style, es: seq<Value>, i: nat): Bytes
    requires i <= |es|
    decreases |es| - i
  {
    if i == |es| then []
    else (if i > 0 then [COMMA] + Blank(st) else []) + ShortText(st, es[i]) + JoinElements(st, es, i + 1)
  }

  /** Elements on lines of their own, from `i` on. */
  function PrettyElements(st: Style, es: seq<Value>, i: nat, ind: Bytes): Bytes
    requires i <= |es|
    decreases es, |es| - i
  {
    if i == |es| then []
    else CommaText(i) + IndentText(st, ind) + Pretty(st, es[i], ind, true) + PrettyElements(st, es, i + 1, ind)
  }

  function PrettyMembers(st: Style, ms: seq<Entry<Value>>, i: nat, ind: Bytes): Bytes
    requires i <= |ms|
    decreases ms, |ms| - i
  {
    if i == |ms| then []
    else CommaText(i) + IndentText(st, ind) + Quote(ms[i].key) + st.colon + Pretty(st, ms[i].val, ind, false)
         + PrettyMembers(st, ms, i + 1, ind)
  }

  /** The flag after writing `v`: only values that span lines clear it. */
  predicate IndentedAfter(st: Style, v: Value, indented: bool) {
    indented && (IsShort(v) || (v.Arr? && SingleLine(st, v.elems)))
  }

  function PrettyDocument(st: Style, v: Value): Bytes {
    Pretty(st, v, [], true) + st.ending
  }

  lemma ShortIsPretty(st: Style, v: Value, ind: Bytes, indented: bool)
    requires IsShort(v)
    ensures Pretty(st, v, ind, indented) == ShortText(st, v)
  {
  }

  // ---------------------------------------------------------------- the writer as it runs

  class StyledWriter {
    const style: Style
    var out: Bytes
    var childValues: seq<Bytes>
    var indentString: Bytes
    var addChildValues: bool
    var indented: bool

    constructor (style: Style)
      ensures this.style == style && childValues == [] && !addChildValues
    {
      this.style := style;
      out, childValues, indentString := [], [], [];
      addChildValues, indented := false, false;
    }

    /** With CommentStyle::All the scratch list is never used. */
    ghost predicate Valid()
      reads this
    {
      style.allComments ==> childValues == []
    }

    method Write(root: Value) returns (r: Bytes)
      requires Writable(root) && Valid()
      modifies this
      ensures r == PrettyDocument(style, root) && Valid()
      ensures indentString == [] && !addChildValues
    {
      hide Pretty, Writable, IndentedAfter;
      out := [];
      addChildValues := false;
      indented := true;
      indentString := [];
      WriteValue(root);
      assert out == Pretty(style, root, [], true);
      out := out + style.ending;
      r := out;
    }

    method PushValue(value: Bytes)
      modifies `childValues, `out
      ensures if addChildValues then childValues == old(childValues) + [value] && out == old(out)
              else childValues == old(childValues) && out == old(out) + value
    {
      if addChildValues {
        childValues := childValues + [value];
      } else {
        out := out + value;
      }
    }

    method WriteIndent()
      modifies `out
      ensures out == old(out) + IndentText(style, indentString)
    {
      if style.indentation != [] {
        out := out + [LF] + indentString;
      }
    }

    method WriteWithIndent(value: Bytes)
      modifies `out, `indented
      ensures out == old(out) + (if old(indented) then [] else IndentText(style, indentString)) + value
      ensures !indented
    {
      if !indented {
        WriteIndent();
      }
      out := out + value;
      indented := false;
    }

    method Indent()
      modifies `indentString
      ensures indentString == old(indentString) + style.indentation
    {
      indentString := indentString + style.indentation;
    }

    method Unindent()
      requires |indentString| >= |style.indentation|
      modifies `indentString
      ensures indentString == old(indentString)[..|old(indentString)| - |style.indentation|]
    {
      indentString := indentString[..|indentString| - |style.indentation|];
    }

    /** Scalars and empty containers, to the output or to the scratch list. */
    method WriteShort(value: Value)
      requires Writable(value) && IsShort(value)
      modifies `childValues, `out
      ensures if addChildValues then childValues == old(childValues) + [ShortText(style, value)] && out == old(out)
              else childValues == old(childValues) && out == old(out) + ShortText(style, value)
    {
      match value
      case Leaf(s) =>
        if s.Null? {
          PushValue(style.nullSymbol);
        } else {
          var r := ScalarToText(Options(false, false, false), s);
          PushValue(r);
        }
      case Arr(_) => PushValue([LBRACKET, RBRACKET]);
      case Obj(_) => PushValue([LBRACE, RBRACE]);
    }

    method WriteValue(value: Value)
      requires Writable(value) && Valid() && !addChildValues
      modifies this
      ensures out == old(out) + Pretty(style, value, old(indentString), old(indented))
      ensures indented == IndentedAfter(style, value, old(indented))
      ensures indentString == old(indentString) && !addChildValues && Valid()
      decreases value, 1
    {
      hide Writable;
      if IsShort(value) {
        WriteShort(value);
      } else {
        WritableParts(value);
        if value.Arr? {
          WriteArrayValue(value.elems);
        } else {
          WriteObjectValue(value.members);
        }
      }
    }

    method WriteArrayValue(es: seq<Value>)
      requires es != [] && (forall e | e in es :: Writable(e)) && Valid() && !addChildValues
      modifies this
      ensures out == old(out) + Pretty(style, Arr(es), old(indentString), old(indented))
      ensures indented == IndentedAfter(style, Arr(es), old(indented))
      ensures indentString == old(indentString) && !addChildValues && Valid()
      decreases es, |es| + 1
    {
      hide Writable, Pretty, LineLength, NoneNested, ShortText;
      var isMultiLine := style.allComments;
      if !isMultiLine {
        isMultiLine := IsMultilineArray(es);
      }
      if isMultiLine {
        WriteMultiline(es);
        MultiText(style, es, old(indentString), old(indented));
      } else {
        WriteSingleLine(es);
        SingleText(style, es, old(indentString), old(indented));
      }
    }

    /** isMultilineArray: decides the layout, and leaves the texts of short children in the scratch list. */
    method IsMultilineArray(es: seq<Value>) returns (isMultiLine: bool)
      requires es != [] && (forall e | e in es :: Writable(e)) && !style.allComments && !addChildValues
      modifies `childValues, `addChildValues, `out
      ensures isMultiLine == !SingleLine(style, es) && !addChildValues && out == old(out)
      ensures childValues == [] || ChildTexts(es)
      ensures !isMultiLine ==> ChildTexts(es)
    {
      hide Writable, ShortText;
      isMultiLine := U32(|es| * 3) >= RIGHT_MARGIN;
      childValues := [];
      var index := 0;
      while index < |es| && !isMultiLine
        invariant 0 <= index <= |es|
        invariant !isMultiLine ==> U32(|es| * 3) < RIGHT_MARGIN && forall i | 0 <= i < index :: IsShort(es[i])
        invariant isMultiLine ==> !SingleLine(style, es)
      {
        isMultiLine := (es[index].Arr? || es[index].Obj?) && !IsShort(es[index]);
        index := index + 1;
      }
      if !isMultiLine {
        isMultiLine := MeasureLine(es);
      }
    }

    /** The children's texts and the length of the line they make. */
    method MeasureLine(es: seq<Value>) returns (isMultiLine: bool)
      requires es != [] && (forall e | e in es :: Writable(e)) && NoneNested(es) && childValues == [] && !addChildValues
      modifies `childValues, `addChildValues, `out
      ensures isMultiLine == (LineLength(style, es, |es|) >= RIGHT_MARGIN)
      ensures ChildTexts(es) && !addChildValues && out == old(out)
    {
      hide Writable, ShortText;
      addChildValues := true;
      var lineLength := U32(4 + (|es| - 1) * 2);
      var index := 0;
      while index < |es|
        invariant 0 <= index <= |es| && addChildValues && out == old(out)
        invariant lineLength == LineLength(style, es, index)
        invariant |childValues| == index
        invariant forall i | 0 <= i < index :: childValues[i] == ShortText(style, es[i])
      {
        WriteShort(es[index]);
        lineLength := U32(lineLength + |childValues[index]|);
        index := index + 1;
      }
      addChildValues := false;
      isMultiLine := lineLength >= RIGHT_MARGIN;
    }

    /** The scratch list holds one text for every child. */
    ghost predicate ChildTexts(es: seq<Value>)
      reads this
    {
      && NoneNested(es) && |childValues| == |es|
      && forall i | 0 <= i < |es| :: childValues[i] == ShortText(style, es[i])
    }

    method WriteSingleLine(es: seq<Value>)
      requires es != [] && ChildTexts(es)
      modifies `out
      ensures out == old(out) + ([LBRACKET] + Blank(style) + JoinElements(style, es, 0) + Blank(style) + [RBRACKET])
    {
      hide ShortText;
      assert |childValues| == |es|;
      ghost var target := out + [LBRACKET] + Blank(style) + JoinElements(style, es, 0);
      out := out + [LBRACKET];
      if style.indentation != [] {
        out := out + [SPACE];
      }
      var index := 0;
      while index < |es|
        invariant 0 <= index <= |es|
        invariant out + JoinElements(style, es, index) == target
      {
        ghost var before := out;
        if index > 0 {
          out := out + if style.indentation != [] then [COMMA, SPACE] else [COMMA];
        }
        out := out + childValues[index];
        JoinStep(style, es, index, before);
        index := index + 1;
      }
      assert out == target;
      if style.indentation != [] {
        out := out + [SPACE];
      }
      assert out == target + Blank(style);
      out := out + [RBRACKET];
      Regroup5(old(out), [LBRACKET], Blank(style), JoinElements(style, es, 0), Blank(style), [RBRACKET]);
    }

    method WriteMultiline(es: seq<Value>)
      requires es != [] && (forall e | e in es :: Writable(e)) && Valid() && !addChildValues
      requires childValues == [] || ChildTexts(es)
      modifies this
      ensures out == old(out) + ((if old(indented) then [] else IndentText(style, old(indentString))) + [LBRACKET] +
                                 PrettyElements(style, es, 0, old(indentString) + style.indentation) +
                                 IndentText(style, old(indentString)) + [RBRACKET])
      ensures !indented && indentString == old(indentString) && !addChildValues && Valid()
      decreases es, |es|
    {
      hide Writable, Pretty, ShortText, NoneNested, IndentText, SingleLine, PrettyElements;
      ghost var ind := indentString;
      ghost var front := if indented then [] else IndentText(style, ind);
      WriteWithIndent([LBRACKET]);
      Indent();
      WriteElements(es);
      Unindent();
      assert indentString == ind;
      WriteWithIndent([RBRACKET]);
      Regroup5(old(out), front, [LBRACKET], PrettyElements(style, es, 0, ind + style.indentation),
          IndentText(style, ind), [RBRACKET]);
    }

    /** The loop of a multi-line array: the scratch list is used if it is filled. */
    method WriteElements(es: seq<Value>)
      requires (forall e | e in es :: Writable(e)) && Valid() && !addChildValues && !indented
      requires childValues == [] || ChildTexts(es)
      modifies this
      ensures out == old(out) + PrettyElements(style, es, 0, indentString)
      ensures !indented && indentString == old(indentString) && !addChildValues && Valid()
      decreases es, |es| - 1
    {
      hide Writable, Pretty, ShortText, NoneNested, IndentText, SingleLine, PrettyElements;
      ghost var target := out + PrettyElements(style, es, 0, indentString);
      var hasChildValue := childValues != [];
      ghost var texts := childValues;
      var index := 0;
      while index < |es|
        invariant 0 <= index <= |es|
        invariant out + PrettyElements(style, es, index, indentString) == target
        invariant !indented && indentString == old(indentString) && !addChildValues && Valid()
        invariant hasChildValue ==> childValues == texts
      {
        ghost var before := out;
        if index > 0 {
          out := out + [COMMA];
        }
        if hasChildValue {
          assert texts[index] == ShortText(style, es[index]);
          NestedShort(style, es, index, indentString);
          WriteWithIndent(childValues[index]);
        } else {
          if !indented {
            WriteIndent();
          }
          indented := true;
          WriteValue(es[index]);
          indented := false;
        }
        ElementStep(style, es, index, indentString, before);
        index := index + 1;
      }
      LastElement(style, es, indentString, out);
    }

    method WriteObjectValue(ms: seq<Entry<Value>>)
      requires ms != [] && Ascending(ms) && (forall m | m in ms :: Writable(m.val)) && Valid() && !addChildValues
      modifies this
      ensures out == old(out) + Pretty(style, Obj(ms), old(indentString), old(indented))
      ensures !indented && indentString == old(indentString) && !addChildValues && Valid()
      decreases ms
    {
      hide Writable, Pretty, IndentText, Ascending, SingleLine, PrettyMembers;
      ghost var ind := indentString;
      ghost var front := if indented then [] else IndentText(style, ind);
      WriteWithIndent([LBRACE]);
      Indent();
      WriteMembers(ms);
      Unindent();
      assert indentString == ind;
      WriteWithIndent([RBRACE]);
      Regroup5(old(out), front, [LBRACE], PrettyMembers(style, ms, 0, ind + style.indentation),
               IndentText(style, ind), [RBRACE]);
      ObjPretty(style, ms, ind, old(indented));
    }

    method WriteMembers(ms: seq<Entry<Value>>)
      requires Ascending(ms) && (forall m | m in ms :: Writable(m.val)) && Valid() && !addChildValues && !indented
      modifies this
      ensures out == old(out) + PrettyMembers(style, ms, 0, indentString)
      ensures !indented && indentString == old(indentString) && !addChildValues && Valid()
      decreases ms, 0
    {
      hide Writable, Pretty, IndentText, Quote, Ascending, SingleLine, PrettyMembers, Get;
      var members := KeysOf(ms);
      ghost var target := out + PrettyMembers(style, ms, 0, indentString);
      var it := 0;
      while it < |members|
        invariant 0 <= it <= |members| == |ms|
        invariant out + PrettyMembers(style, ms, it, indentString) == target
        invariant !indented && indentString == old(indentString) && !addChildValues && Valid()
      {
        ghost var before := out;
        if it > 0 {
          out := out + [COMMA];
        }
        LookUp(ms, it, Leaf(Null));
        var quoted := QuoteString(members[it]);
        WriteWithIndent(quoted);
        out := out + style.colon;
        assert ms[it] in ms && Get(ms, members[it], Leaf(Null)) == ms[it].val;
        WriteValue(ms[it].val);
        MemberStep(style, ms, it, indentString, before);
        it := it + 1;
      }
      LastMember(style, ms, indentString, out);
    }
  }

  lemma LastElement(st: Style, es: seq<Value>, ind: Bytes, out: Bytes)
    ensures out + PrettyElements(st, es, |es|, ind) == out
  {
  }

  lemma LastMember(st: Style, ms: seq<Entry<Value>>, ind: Bytes, out: Bytes)
    ensures out + PrettyMembers(st, ms, |ms|, ind) == out
  {
  }

  lemma WritableParts(v: Value)
    requires Writable(v)
    ensures v.Arr? ==> forall e | e in v.elems :: Writable(e)
    ensures v.Obj? ==> Ascending(v.members) && forall m | m in v.members :: Writable(m.val)
  {
  }

  lemma MultiText(st: Style, es: seq<Value>, ind: Bytes, indented: bool)
    requires es != [] && !SingleLine(st, es)
    ensures Pretty(st, Arr(es), ind, indented) ==
            (if indented then [] else IndentText(st, ind)) + [LBRACKET] +
            PrettyElements(st, es, 0, ind + st.indentation) + IndentText(st, ind) + [RBRACKET]
  {
    hide SingleLine;
  }

  lemma SingleText(st: Style, es: seq<Value>, ind: Bytes, indented: bool)
    requires es != [] && SingleLine(st, es)
    ensures Pretty(st, Arr(es), ind, indented) ==
            [LBRACKET] + Blank(st) + JoinElements(st, es, 0) + Blank(st) + [RBRACKET]
  {
    hide SingleLine;
  }

  lemma ObjPretty(st: Style, ms: seq<Entry<Value>>, ind: Bytes, indented: bool)
    requires ms != []
    ensures Pretty(st, Obj(ms), ind, indented) ==
            (if indented then [] else IndentText(st, ind)) + [LBRACE] +
            PrettyMembers(st, ms, 0, ind + st.indentation) + IndentText(st, ind) + [RBRACE]
  {
    hide IndentText;
  }

  lemma NestedShort(st: Style, es: seq<Value>, i: nat, ind: Bytes)
    requires i < |es| && NoneNested(es)
    ensures Pretty(st, es[i], ind, true) == ShortText(st, es[i])
  {
  }

  lemma JoinStep(st: Style, es: seq<Value>, i: nat, before: Bytes)
    requires i < |es|
    ensures before + (if i > 0 then (if st.indentation != [] then [COMMA, SPACE] else [COMMA]) else [])
            + ShortText(st, es[i])
              + JoinElements(st, es, i + 1) == before + JoinElements(st, es, i)
  {
    hide ShortText;
    assert [COMMA] + [SPACE] == [COMMA, SPACE];
    assert [COMMA] + [] == [COMMA];
  }

  lemma ElementStep(st: Style, es: seq<Value>, i: nat, ind: Bytes, before: Bytes)
    requires i < |es|
    ensures before + CommaText(i) + IndentText(st, ind) + Pretty(st, es[i], ind, true)
            + PrettyElements(st, es, i + 1, ind) ==
            before + PrettyElements(st, es, i, ind)
  {
    hide IndentText, Pretty;
  }

  lemma MemberStep(st: Style, ms: seq<Entry<Value>>, i: nat, ind: Bytes, before: Bytes)
    requires i < |ms|
    ensures before + CommaText(i) + IndentText(st, ind) + Quote(ms[i].key) + st.colon
            + Pretty(st, ms[i].val, ind, false)
              + PrettyMembers(st, ms, i + 1, ind) == before + PrettyMembers(st, ms, i, ind)
  {
    hide IndentText, Pretty, Quote;
  }
}
