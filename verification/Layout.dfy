/**
 * The layout of the pretty writer: a document is a list of lines, each indented by its level.
 * The writer, which carries an indentation string and a flag through the tree and writes commas
 * in front of what follows them, prints exactly these lines.
 */
module Layouts {
  import opened Bytes
  import opened Seqs
  import opened StringCodec
  import opened Values
  import opened FastWriters
  import opened StyledWriters

  datatype Line = Line(level: nat, text: Bytes)

  // ---------------------------------------------------------------- the lines of a value

  function Deeper(ls: seq<Line>): (r: seq<Line>)
    ensures |r| == |ls| && forall i | 0 <= i < |r| :: r[i] == Line(ls[i].level + 1, ls[i].text)
  {
    seq(|ls|, i requires 0 <= i < |ls| => Line(ls[i].level + 1, ls[i].text))
  }

  /** A comma at the end of the last line. */
  function WithComma(ls: seq<Line>): seq<Line>
    requires ls != []
  {
    var last := ls[|ls| - 1];
    ls[..|ls| - 1] + [Line(last.level, last.text + [0x2C])]
  }

  /** A scalar, an empty container or a single-line array is one line; other containers have lines of their own. */
  function Lines(st: Style, v: Value): (ls: seq<Line>)
    ensures ls != [] && ls[0].level == 0
    decreases v
  {
    if IsShort(v) then [Line(0, ShortText(st, v))]
    else
      match v
      case Arr(es) =>
        if SingleLine(st, es) then [Line(0, OneLine(st, es))]
        else [Line(0, [0x5B])] + Deeper(ElementLines(st, es, 0)) + [Line(0, [0x5D])]
      case Obj(ms) => [Line(0, [0x7B])] + Deeper(MemberLines(st, ms, 0)) + [Line(0, [0x7D])]
  }

  function ElementLines(st: Style, es: seq<Value>, i: nat): seq<Line>
    requires i <= |es|
    decreases es, |es| - i
  {
    if i == |es| then []
    else if i + 1 == |es| then Lines(st, es[i])
    else WithComma(Lines(st, es[i])) + ElementLines(st, es, i + 1)
  }

  function MemberLines(st: Style, ms: seq<Entry<Value>>, i: nat): seq<Line>
    requires i <= |ms|
    decreases ms, |ms| - i
  {
    if i == |ms| then []
    else
      var ls := Labelled(st, ms[i].key, Lines(st, ms[i].val));
      if i + 1 == |ms| then ls else WithComma(ls) + MemberLines(st, ms, i + 1)
  }

  /** The name stands in front of a value of one line, and otherwise on a line of its own. */
  function Labelled(st: Style, key: Bytes, ls: seq<Line>): (r: seq<Line>)
    requires ls != []
    ensures r != []
  {
    var head := Quote(key) + st.colon;
    if |ls| == 1 then [Line(ls[0].level, head + ls[0].text)] else [Line(0, head)] + ls
  }

  /** The elements with commas between them, and blanks unless the indentation is empty. */
  function OneLine(st: Style, es: seq<Value>): Bytes {
    var blank: Bytes := if st.indentation == [] then [] else [0x20];
    [0x5B] + blank + Listed(st, es, blank) + blank + [0x5D]
  }

  function Listed(st: Style, es: seq<Value>, blank: Bytes): Bytes {
    if es == [] then []
    else if |es| == 1 then ShortText(st, es[0])
    else ShortText(st, es[0]) + [0x2C] + blank + Listed(st, es[1..], blank)
  }

  // ---------------------------------------------------------------- lines as text

  function Repeated(x: Bytes, k: nat): Bytes {
    if k == 0 then [] else Repeated(x, k - 1) + x
  }

  /** A line feed and the indentation; nothing at all if the indentation is empty. */
  function Start(st: Style, level: nat): Bytes {
    if st.indentation == [] then [] else [0x0A] + Repeated(st.indentation, level)
  }

  /** Lines from level `k` on, each with its start. */
  function Printed(st: Style, ls: seq<Line>, k: nat): Bytes
    decreases |ls|
  {
    if ls == [] then [] else Start(st, k + ls[0].level) + ls[0].text + Printed(st, ls[1..], k)
  }

  lemma {:induction false} PrintedConcat(st: Style, a: seq<Line>, b: seq<Line>, k: nat)
    ensures Printed(st, a + b, k) == Printed(st, a, k) + Printed(st, b, k)
    decreases |a|
  {
    hide Start;
    if a == [] {
      assert a + b == b;
    } else {
      assert (a + b)[1..] == a[1..] + b;
      PrintedConcat(st, a[1..], b, k);
      Reassociate(Start(st, k + a[0].level) + a[0].text, Printed(st, a[1..], k), Printed(st, b, k));
    }
  }

  lemma {:induction false} PrintedDeeper(st: Style, ls: seq<Line>, k: nat)
    ensures Printed(st, Deeper(ls), k) == Printed(st, ls, k + 1)
    decreases |ls|
  {
    hide Start;
    if ls != [] {
      assert Deeper(ls)[1..] == Deeper(ls[1..]);
      PrintedDeeper(st, ls[1..], k);
    }
  }

  lemma PrintedOne(st: Style, l: Line, k: nat)
    ensures Printed(st, [l], k) == Start(st, k + l.level) + l.text
  {
    hide Start;
    assert [l][1..] == [];
  }

  lemma PrintedComma(st: Style, ls: seq<Line>, k: nat)
    requires ls != []
    ensures Printed(st, WithComma(ls), k) == Printed(st, ls, k) + [0x2C]
  {
    hide Start, Printed;
    var front, last := ls[..|ls| - 1], ls[|ls| - 1];
    assert ls == front + [last];
    PrintedConcat(st, front, [last], k);
    PrintedConcat(st, front, [Line(last.level, last.text + [0x2C])], k);
    PrintedOne(st, last, k);
    PrintedOne(st, Line(last.level, last.text + [0x2C]), k);
  }

  // ---------------------------------------------------------------- the writer prints the lines

  lemma StartIsIndent(st: Style, k: nat)
    ensures IndentText(st, Repeated(st.indentation, k)) == Start(st, k)
  {
  }

  lemma {:induction false} JoinedIsListed(st: Style, es: seq<Value>, i: nat)
    requires i < |es|
    ensures JoinElements(st, es, i) ==
            (if i > 0 then [COMMA] + Blank(st) else []) + Listed(st, es[i..], Blank(st))
    decreases |es| - i
  {
    hide ShortText, Blank;
    var rest := es[i..];
    assert rest[0] == es[i];
    if i + 1 == |es| {
      assert JoinElements(st, es, i + 1) == [];
    } else {
      JoinedIsListed(st, es, i + 1);
      assert rest[1..] == es[i + 1..];
      var text := ShortText(st, es[i]);
      Reassociate(text, [COMMA] + Blank(st), Listed(st, es[i + 1..], Blank(st)));
      Reassociate(text, [COMMA], Blank(st));
    }
  }

  lemma SingleIsOneLine(st: Style, es: seq<Value>)
    requires es != []
    ensures [LBRACKET] + Blank(st) + JoinElements(st, es, 0) + Blank(st) + [RBRACKET] == OneLine(st, es)
  {
    hide Listed, JoinElements;
    JoinedIsListed(st, es, 0);
    assert es[0..] == es;
  }

  /** A value on the current line, or on lines of its own. */
  predicate Fits(st: Style, v: Value) {
    IsShort(v) || (v.Arr? && SingleLine(st, v.elems))
  }

  /**
   * With the indentation of level `k`: a value of one line is written as it is, whatever the
   * flag says; any other value is written as its lines, without the start of the first one if
   * the flag is set.
   */
  lemma {:induction false} PrettyIsLines(st: Style, v: Value, k: nat)
    ensures var ind := Repeated(st.indentation, k);
            && Start(st, k) + Pretty(st, v, ind, true) == Printed(st, Lines(st, v), k)
            && (|Lines(st, v)| == 1 <==> Fits(st, v))
            && (Fits(st, v) ==> Pretty(st, v, ind, false) == Lines(st, v)[0].text)
            && (!Fits(st, v) ==> Pretty(st, v, ind, false) == Printed(st, Lines(st, v), k))
    decreases v, 1
  {
    hide Start, IndentText, ShortText, SingleLine, JoinElements, OneLine, Printed, PrettyElements, PrettyMembers,
      ElementLines, MemberLines, Deeper;
    var ind := Repeated(st.indentation, k);
    if Fits(st, v) {
      FitsOnLine(st, v, ind, true);
      FitsOnLine(st, v, ind, false);
      PrintedOne(st, Lines(st, v)[0], k);
      assert Lines(st, v) == [Lines(st, v)[0]];
    } else if v.Arr? {
      ElementsAreLines(st, v.elems, 0, k + 1);
      StartIsIndent(st, k);
      MultiText(st, v.elems, ind, true);
      MultiText(st, v.elems, ind, false);
      Brackets(st, LBRACKET, ElementLines(st, v.elems, 0), PrettyElements(st, v.elems, 0, ind + st.indentation),
               RBRACKET, k);
      BracketLines(0x5B, ElementLines(st, v.elems, 0), 0x5D);
    } else {
      MembersAreLines(st, v.members, 0, k + 1);
      StartIsIndent(st, k);
      ObjPretty(st, v.members, ind, true);
      ObjPretty(st, v.members, ind, false);
      Brackets(st, LBRACE, MemberLines(st, v.members, 0), PrettyMembers(st, v.members, 0, ind + st.indentation), RBRACE,
               k);
      BracketLines(0x7B, MemberLines(st, v.members, 0), 0x7D);
    }
  }

  lemma FitsOnLine(st: Style, v: Value, ind: Bytes, indented: bool)
    requires Fits(st, v)
    ensures |Lines(st, v)| == 1 && Pretty(st, v, ind, indented) == Lines(st, v)[0].text
  {
    hide ShortText, SingleLine, OneLine, JoinElements, IndentText;
    if !IsShort(v) {
      SingleText(st, v.elems, ind, indented);
      SingleIsOneLine(st, v.elems);
    }
  }

  lemma BracketLines(open: byte, ls: seq<Line>, close: byte)
    ensures |[Line(0, [open])] + Deeper(ls) + [Line(0, [close])]| > 1
  {
  }

  /** Brackets around lines. */
  lemma Brackets(st: Style, open: byte, ls: seq<Line>, body: Bytes, close: byte, k: nat)
    requires body == Printed(st, ls, k + 1)
    ensures Start(st, k) + [open] + body + Start(st, k) + [close] ==
            Printed(st, [Line(0, [open])] + Deeper(ls) + [Line(0, [close])], k)
    ensures Start(st, k) + ([] + [open] + body + Start(st, k) + [close]) ==
            Printed(st, [Line(0, [open])] + Deeper(ls) + [Line(0, [close])], k)
  {
    hide Start, Printed;
    PrintedConcat(st, [Line(0, [open])] + Deeper(ls), [Line(0, [close])], k);
    PrintedConcat(st, [Line(0, [open])], Deeper(ls), k);
    PrintedDeeper(st, ls, k);
    PrintedOne(st, Line(0, [open]), k);
    PrintedOne(st, Line(0, [close]), k);
    Reassociate(Start(st, k) + [open] + body, Start(st, k), [close]);
    assert [] + [open] == [open];
    RegroupLine(Start(st, k), [open], body, Start(st, k), [close]);
  }

  lemma RegroupLine(a: Bytes, b: Bytes, c: Bytes, d: Bytes, e: Bytes)
    ensures a + (b + c + d + e) == a + b + c + d + e
  {
  }

  lemma {:induction false} ElementsAreLines(st: Style, es: seq<Value>, i: nat, k: nat)
    requires i <= |es|
    ensures PrettyElements(st, es, i, Repeated(st.indentation, k)) ==
            (if i < |es| then CommaText(i) else []) + Printed(st, ElementLines(st, es, i), k)
    decreases es, |es| - i
  {
    hide Start, IndentText, Pretty, Printed, Lines, Repeated;
    var ind := Repeated(st.indentation, k);
    if i < |es| {
      PrettyIsLines(st, es[i], k);
      StartIsIndent(st, k);
      ElementsAreLines(st, es, i + 1, k);
      var ls := Lines(st, es[i]);
      Reassociate(CommaText(i), Start(st, k), Pretty(st, es[i], ind, true));
      if i + 1 == |es| {
        LastIsEmpty(st, k);
      } else {
        PrintedComma(st, ls, k);
        PrintedConcat(st, WithComma(ls), ElementLines(st, es, i + 1), k);
        Regroup(CommaText(i), Printed(st, ls, k), [COMMA], Printed(st, ElementLines(st, es, i + 1), k));
        Reassociate(CommaText(i) + Printed(st, ls, k), [COMMA], Printed(st, ElementLines(st, es, i + 1), k));
      }
    } else {
      LastIsEmpty(st, k);
    }
  }

  lemma LastIsEmpty(st: Style, k: nat)
    ensures Printed(st, [], k) == []
  {
  }

  /** A name and its value. */
  lemma LabelledIsPrinted(st: Style, key: Bytes, v: Value, k: nat)
    ensures Start(st, k) + Quote(key) + st.colon + Pretty(st, v, Repeated(st.indentation, k), false) ==
            Printed(st, Labelled(st, key, Lines(st, v)), k)
    decreases v, 2
  {
    hide Start, IndentText, Pretty, Printed, Lines, Repeated, Quote, Fits;
    PrettyIsLines(st, v, k);
    var ls, head := Lines(st, v), Quote(key) + st.colon;
    Reassociate(Start(st, k), Quote(key), st.colon);
    if |ls| == 1 {
      PrintedOne(st, Line(0, head + ls[0].text), k);
      Reassociate(Start(st, k), head, ls[0].text);
    } else {
      PrintedOne(st, Line(0, head), k);
      PrintedConcat(st, [Line(0, head)], ls, k);
    }
  }

  lemma {:induction false} MembersAreLines(st: Style, ms: seq<Entry<Value>>, i: nat, k: nat)
    requires i <= |ms|
    ensures PrettyMembers(st, ms, i, Repeated(st.indentation, k)) ==
            (if i < |ms| then CommaText(i) else []) + Printed(st, MemberLines(st, ms, i), k)
    decreases ms, |ms| - i
  {
    hide Start, IndentText, Pretty, Printed, Lines, Repeated, Quote, Labelled;
    var ind := Repeated(st.indentation, k);
    if i < |ms| {
      LabelledIsPrinted(st, ms[i].key, ms[i].val, k);
      StartIsIndent(st, k);
      MembersAreLines(st, ms, i + 1, k);
      var ls := Labelled(st, ms[i].key, Lines(st, ms[i].val));
      MemberText(st, ms, i, ind);
      if i + 1 == |ms| {
        LastIsEmpty(st, k);
      } else {
        PrintedComma(st, ls, k);
        PrintedConcat(st, WithComma(ls), MemberLines(st, ms, i + 1), k);
        Regroup(CommaText(i), Printed(st, ls, k), [COMMA], Printed(st, MemberLines(st, ms, i + 1), k));
        Reassociate(CommaText(i) + Printed(st, ls, k), [COMMA], Printed(st, MemberLines(st, ms, i + 1), k));
      }
    } else {
      LastIsEmpty(st, k);
    }
  }

  lemma MemberText(st: Style, ms: seq<Entry<Value>>, i: nat, ind: Bytes)
    requires i < |ms|
    ensures PrettyMembers(st, ms, i, ind) ==
            CommaText(i) + (IndentText(st, ind) + Quote(ms[i].key) + st.colon + Pretty(st, ms[i].val, ind, false))
            + PrettyMembers(st, ms, i + 1, ind)
  {
    hide IndentText, Quote, Pretty;
    RegroupLine(CommaText(i), IndentText(st, ind), Quote(ms[i].key), st.colon, Pretty(st, ms[i].val, ind, false));
  }

  /** The whole document: its lines, the first without a line feed, and the ending. */
  lemma DocumentIsLines(st: Style, v: Value)
    ensures var ls := Lines(st, v);
            PrettyDocument(st, v) == ls[0].text + Printed(st, ls[1..], 0) + st.ending
  {
    hide Pretty, Lines, Printed, Start;
    PrettyIsLines(st, v, 0);
    FirstLine(st, Lines(st, v));
    Cancel(Start(st, 0), Pretty(st, v, [], true), Lines(st, v)[0].text + Printed(st, Lines(st, v)[1..], 0));
  }

  lemma Cancel(a: Bytes, x: Bytes, y: Bytes)
    requires a + x == a + y
    ensures x == y
  {
    assert (a + x)[|a|..] == x && (a + y)[|a|..] == y;
  }

  lemma FirstLine(st: Style, ls: seq<Line>)
    requires ls != [] && ls[0].level == 0
    ensures Printed(st, ls, 0) == Start(st, 0) + (ls[0].text + Printed(st, ls[1..], 0))
  {
    hide Start;
    Reassociate(Start(st, 0), ls[0].text, Printed(st, ls[1..], 0));
  }

  // ---------------------------------------------------------------- which arrays go on one line

  /** The lengths of the elements' texts. */
  function Total(st: Style, es: seq<Value>, n: nat): nat
    requires n <= |es|
  {
    if n == 0 then 0 else Total(st, es, n - 1) + |ShortText(st, es[n - 1])|
  }

  lemma {:induction false} LengthIsTotal(st: Style, es: seq<Value>, n: nat)
    requires n <= |es| && es != []
    ensures LineLength(st, es, n) == (4 + 2 * (|es| - 1) + Total(st, es, n)) % 0x1_0000_0000
  {
    hide ShortText, U32;
    if n == 0 {
      WrapTwice(4 + (|es| - 1) * 2, 0);
    } else {
      LengthIsTotal(st, es, n - 1);
      WrapTwice(4 + 2 * (|es| - 1) + Total(st, es, n - 1), |ShortText(st, es[n - 1])|);
    }
  }

  /** Wrapping around before an addition makes no difference. */
  lemma WrapTwice(x: nat, y: nat)
    ensures U32(x) == x % 0x1_0000_0000
    ensures U32(x % 0x1_0000_0000 + y) == (x + y) % 0x1_0000_0000
  {
  }

  /**
   * An array goes on one line exactly when comments are not all kept, no element is a container
   * with contents, and both the number of elements and the length of the line are small enough;
   * stated for arrays whose lengths do not overflow 32 bits.
   */
  lemma SingleLineIff(st: Style, es: seq<Value>)
    requires es != [] && 3 * |es| < 0x1_0000_0000 && 2 + 2 * |es| + Total(st, es, |es|) < 0x1_0000_0000
    ensures SingleLine(st, es) <==>
            && !st.allComments
            && (forall e | e in es :: e.Leaf? || e == Arr([]) || e == Obj([]))
            && 3 * |es| < 74
            && 2 + 2 * |es| + Total(st, es, |es|) < 74
  {
    hide ShortText, LineLength, Total;
    LengthIsTotal(st, es, |es|);
  }
}
