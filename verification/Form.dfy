/**
 * Everything that the reader accepts, comments and dropped nulls included, as trees: a document
 * is accepted if and only if its tokens begin with a tree of the right form, and its value is
 * then the meaning of that tree.
 */
module Forms {
  import opened Bytes
  import opened Seqs
  import opened Wrappers
  import opened Lexer
  import opened Values
  import opened ReaderSpec
  import opened ReaderTheorems

  type Comments = seq<Lexeme>

  /** A value as it may be written, with the comments in front of it. */
  datatype Form =
    | Word(lead: Comments, lexeme: Lexeme)
    | Missing(lead: Comments)
    | Sequence(lead: Comments, parts: seq<Part>)
    | Mapping(lead: Comments, bindings: seq<Binding>, end: Option<Comments>)

  /** An element, and the comments after it. */
  datatype Part = Part(val: Form, gap: Comments)

  /**
   * A member: comments, its name, a colon, its value, comments, and the token that separates it
   * from the next member or closes the object.
   */
  datatype Binding = Binding(lead: Comments, name: Lexeme, val: Form, gap: Comments, stop: Lexeme)

  // ---------------------------------------------------------------- tokens

  /** What of a lexeme matters: the text of a scalar, the kind alone of anything else. */
  function Sign(l: Lexeme): Lexeme {
    if IsScalarKind(l.kind) then l else Lexeme(l.kind, [])
  }

  function Signs(ls: seq<Lexeme>): (r: seq<Lexeme>)
    ensures |r| == |ls| && forall i | 0 <= i < |r| :: r[i] == Sign(ls[i])
  {
    seq(|ls|, i requires 0 <= i < |ls| => Sign(ls[i]))
  }

  function SignsOf(toks: seq<Token>): (r: seq<Lexeme>)
    ensures |r| == |toks| && forall i | 0 <= i < |r| :: r[i] == Sign(LexemeOf(toks[i]))
  {
    Signs(Lexemes(toks))
  }

  function Punct(k: Kind): Lexeme {
    Lexeme(k, [])
  }

  predicate AreComments(ls: Comments) {
    forall l | l in ls :: l == Punct(Comment)
  }

  // ---------------------------------------------------------------- how a tree is written

  function Written(x: Form): seq<Lexeme>
    decreases x
  {
    match x
    case Word(lead, l) => lead + [l]
    case Missing(lead) => lead
    case Sequence(lead, ps) =>
      lead + ([Punct(ArrayBegin)] + if ps == [] then [Punct(ArrayEnd)] else WrittenParts(ps))
    case Mapping(lead, bs, end) => lead + ([Punct(ObjectBegin)] + (WrittenBindings(bs) + WrittenEnd(end)))
  }

  /** The elements, each followed by a comma and the last one by the closing bracket. */
  function WrittenParts(ps: seq<Part>): seq<Lexeme>
    decreases ps
  {
    if ps == [] then []
    else Written(ps[0].val) + (ps[0].gap + ([Punct(PartStop(ps))] + WrittenParts(ps[1..])))
  }

  function PartStop(ps: seq<Part>): Kind {
    if |ps| == 1 then ArrayEnd else ArraySeparator
  }

  function WrittenBindings(bs: seq<Binding>): seq<Lexeme>
    decreases bs
  {
    if bs == [] then []
    else
      bs[0].lead + ([bs[0].name, Punct(MemberSeparator)]
      + (Written(bs[0].val) + (bs[0].gap + ([bs[0].stop] + WrittenBindings(bs[1..])))))
  }

  /** A closing brace that stands where a member could start. */
  function WrittenEnd(end: Option<Comments>): seq<Lexeme> {
    if end.None? then [] else end.value + [Punct(ObjectEnd)]
  }

  // ---------------------------------------------------------------- which trees are right

  /**
   * Comments before a value need allowComments; a missing value needs allowDroppedNull and a
   * comma or closing bracket right after it. Empty brackets are an empty array, not an array of
   * a missing value.
   */
  predicate Proper(cfg: Config, x: Form)
    decreases x
  {
    && AreComments(x.lead) && (x.lead != [] ==> cfg.allowComments)
    && match x
       case Word(_, l) => IsScalarKind(l.kind)
       case Missing(_) => cfg.allowDroppedNull
       case Sequence(_, ps) => ps != [Part(Missing([]), [])] && ProperParts(cfg, ps)
       case Mapping(_, bs, end) => ProperBindings(cfg, [], bs, end)
  }

  predicate ProperParts(cfg: Config, ps: seq<Part>)
    decreases ps
  {
    ps == [] ||
    (&& Proper(cfg, ps[0].val) && AreComments(ps[0].gap) && (ps[0].val.Missing? ==> ps[0].gap == [])
     && ProperParts(cfg, ps[1..]))
  }

  /**
   * Members are separated by a comma, or after a comment by any token at all. The object ends
   * with the brace after a member; or with a brace where a member could start, but that only at
   * the beginning or after a member with an empty name (`last`).
   */
  predicate ProperBindings(cfg: Config, last: Bytes, bs: seq<Binding>, end: Option<Comments>)
    decreases bs
  {
    if bs == [] then last == [] && end.Some? && AreComments(end.value)
    else
      var b := bs[0];
      && (b.name.kind == StringToken || (b.name.kind == NumberToken && cfg.allowNumericKeys))
      && AreComments(b.lead) && AreComments(b.gap)
      && Proper(cfg, b.val) && (b.val.Missing? ==> b.gap == [])
      && b.stop.kind != Comment && Sign(b.stop) == b.stop
      && if b.stop.kind == ObjectEnd then |bs| == 1 && end.None?
         else (b.gap == [] ==> b.stop.kind == ArraySeparator) && ProperBindings(cfg, NameText(cfg, b), bs[1..], end)
  }

  /** A missing value is followed by a comma or a closing bracket. */
  predicate Follows(x: Form, more: seq<Lexeme>) {
    x.Missing? ==> more != [] && IsPlaceholder(more[0].kind)
  }

  // ---------------------------------------------------------------- meaning

  lemma PlaceIsIrrelevant(cfg: Config, tok: Token, l: Lexeme)
    requires Sign(LexemeOf(tok)) == l
    ensures IsScalarKind(l.kind) ==> ScalarOf(cfg, tok) == ScalarOf(cfg, Bare(l))
    ensures NameOf(cfg, tok) == NameOf(cfg, Bare(l))
  {
    hide DecodeScalar, DecodeLiteral;
  }

  /** The name of a member, if it can be decoded. */
  function NameText(cfg: Config, b: Binding): Bytes {
    if NameOf(cfg, Bare(b.name)).Name? then NameOf(cfg, Bare(b.name)).name else []
  }

  /** Every scalar and every name can be decoded. */
  predicate Readable(cfg: Config, x: Form)
    decreases x
  {
    match x
    case Word(_, l) => ScalarOf(cfg, Bare(l)).Denotes?
    case Missing(_) => true
    case Sequence(_, ps) => ReadableParts(cfg, ps)
    case Mapping(_, bs, _) => ReadableBindings(cfg, bs)
  }

  predicate ReadableParts(cfg: Config, ps: seq<Part>)
    decreases ps
  {
    ps == [] || (Readable(cfg, ps[0].val) && ReadableParts(cfg, ps[1..]))
  }

  predicate ReadableBindings(cfg: Config, bs: seq<Binding>)
    decreases bs
  {
    bs == [] || (NameOf(cfg, Bare(bs[0].name)).Name? && Readable(cfg, bs[0].val) && ReadableBindings(cfg, bs[1..]))
  }

  /** The value of a readable tree; a later member replaces an earlier one of the same name. */
  function Meaning(cfg: Config, x: Form): Value
    decreases x
  {
    match x
    case Word(_, l) => Leaf(if ScalarOf(cfg, Bare(l)).Denotes? then ScalarOf(cfg, Bare(l)).scalar else Null)
    case Missing(_) => Leaf(Null)
    case Sequence(_, ps) => Arr(MeaningParts(cfg, ps))
    case Mapping(_, bs, _) => Obj(PutAll([], MeaningBindings(cfg, bs)))
  }

  function MeaningParts(cfg: Config, ps: seq<Part>): seq<Value>
    decreases ps
  {
    if ps == [] then [] else [Meaning(cfg, ps[0].val)] + MeaningParts(cfg, ps[1..])
  }

  function MeaningBindings(cfg: Config, bs: seq<Binding>): seq<Entry<Value>>
    decreases bs
  {
    if bs == [] then []
    else [Entry(NameText(cfg, bs[0]), Meaning(cfg, bs[0].val))] + MeaningBindings(cfg, bs[1..])
  }

  /** Nesting depth: the height of the node stack that reading needs. */
  function Height(x: Form): (d: nat)
    ensures d >= 1
    decreases x
  {
    match x
    case Word(_, _) => 1
    case Missing(_) => 1
    case Sequence(_, ps) => 1 + PartsHeight(ps)
    case Mapping(_, bs, _) => 1 + BindingsHeight(bs)
  }

  function PartsHeight(ps: seq<Part>): nat
    decreases ps
  {
    if ps == [] then 0 else Max(Height(ps[0].val), PartsHeight(ps[1..]))
  }

  function BindingsHeight(bs: seq<Binding>): nat
    decreases bs
  {
    if bs == [] then 0 else Max(Height(bs[0].val), BindingsHeight(bs[1..]))
  }

  // ---------------------------------------------------------------- the next tokens

  lemma Next(toks: seq<Token>, eof: nat, l: Lexeme, more: seq<Lexeme>)
    requires SignsOf(toks) == [l] + more
    ensures toks != [] && Sign(LexemeOf(Head(toks, eof))) == l && Head(toks, eof).kind == l.kind
    ensures SignsOf(Tail(toks)) == more
    ensures l.kind != Comment ==> DropComments(toks) == toks
  {
    assert SignsOf(toks)[0] == l;
    assert SignsOf(Tail(toks)) == SignsOf(toks)[1..];
  }

  lemma {:induction false} DropsComments(toks: seq<Token>, lead: Comments, more: seq<Lexeme>)
    requires AreComments(lead) && SignsOf(toks) == lead + more && (more == [] || more[0].kind != Comment)
    ensures SignsOf(DropComments(toks)) == more
  {
    hide SignsOf, Sign;
    if lead != [] {
      FirstComment(toks, lead, more);
      DropsComments(Tail(toks), lead[1..], more);
    } else {
      assert lead + more == more;
      NothingToDrop(toks, more);
    }
  }

  lemma FirstComment(toks: seq<Token>, lead: Comments, more: seq<Lexeme>)
    requires lead != [] && AreComments(lead) && SignsOf(toks) == lead + more
    ensures toks != [] && toks[0].kind == Comment && SignsOf(Tail(toks)) == lead[1..] + more
    ensures AreComments(lead[1..])
  {
    hide SignsOf;
    assert lead[0] in lead;
    assert lead + more == [lead[0]] + (lead[1..] + more);
    Next(toks, 0, lead[0], lead[1..] + more);
    forall l | l in lead[1..] ensures l == Punct(Comment) {
      assert l in lead;
    }
  }

  lemma NothingToDrop(toks: seq<Token>, more: seq<Lexeme>)
    requires SignsOf(toks) == more && (more == [] || more[0].kind != Comment)
    ensures DropComments(toks) == toks
  {
    if more != [] {
      assert more == [more[0]] + more[1..];
      Next(toks, 0, more[0], more[1..]);
    }
  }

  lemma SkipsLead(cfg: Config, toks: seq<Token>, lead: Comments, more: seq<Lexeme>)
    requires AreComments(lead) && SignsOf(toks) == lead + more && (more == [] || more[0].kind != Comment)
    requires lead != [] ==> cfg.allowComments
    ensures SignsOf(SkipCommentTokens(cfg, toks)) == more
  {
    DropsComments(toks, lead, more);
    if lead == [] {
      assert lead + more == more;
    }
  }

  // ---------------------------------------------------------------- trees are read

  /** A tree is read exactly when it is readable and not too deep, and then with its meaning. */
  lemma {:induction false} ReadsForm(cfg: Config, eof: nat, toks: seq<Token>, depth: nat, cur: Node,
                                     x: Form, more: seq<Lexeme>)
    requires Proper(cfg, x) && SignsOf(toks) == Written(x) + more && Follows(x, more)
    ensures var r := ReadValue(cfg, eof, toks, depth, cur);
            && (r.status == Ok <==> Readable(cfg, x) && depth + Height(x) - 1 <= STACK_LIMIT)
            && (Readable(cfg, x) && r.status != Ok ==> r.status == Aborted)
            && (r.status == Ok ==> Strip(r.val) == Meaning(cfg, x) && SignsOf(r.rest) == more)
    decreases x, 2
  {
    hide ReadValue, SignsOf, WrittenParts, WrittenBindings, AreComments, ProperParts, ProperBindings, MeaningParts,
      MeaningBindings, ReadableParts, ReadableBindings, PartsHeight, BindingsHeight, PutAll, ScalarOf;
    if depth > STACK_LIMIT {
      TooDeep(cfg, eof, toks, depth, cur);
    } else {
      match x
      case Word(lead, l) => ReadsWord(cfg, eof, toks, depth, cur, lead, l, more);
      case Missing(lead) => ReadsMissing(cfg, eof, toks, depth, cur, lead, more);
      case Sequence(lead, ps) => ReadsSequence(cfg, eof, toks, depth, cur, lead, ps, more);
      case Mapping(lead, bs, end) => ReadsMapping(cfg, eof, toks, depth, cur, lead, bs, end, more);
    }
  }

  lemma TooDeep(cfg: Config, eof: nat, toks: seq<Token>, depth: nat, cur: Node)
    requires depth > STACK_LIMIT
    ensures ReadValue(cfg, eof, toks, depth, cur).status == Aborted
  {
  }

  lemma ReadsWord(cfg: Config, eof: nat, toks: seq<Token>, depth: nat, cur: Node, lead: Comments, l: Lexeme,
                  more: seq<Lexeme>)
    requires depth <= STACK_LIMIT && Proper(cfg, Word(lead, l)) && SignsOf(toks) == lead + [l] + more
    ensures var r := ReadValue(cfg, eof, toks, depth, cur);
            && (r.status == Ok <==> ScalarOf(cfg, Bare(l)).Denotes?) && r.status != Aborted
            && (r.status == Ok ==> Strip(r.val) == Leaf(ScalarOf(cfg, Bare(l)).scalar) && SignsOf(r.rest) == more)
  {
    hide SkipCommentTokens, ReadMembers, ReadArray, DecodeScalar, DecodeLiteral, SignsOf, AreComments;
    Reassociate(lead, [l], more);
    SkipsLead(cfg, toks, lead, [l] + more);
    var ts := SkipCommentTokens(cfg, toks);
    Next(ts, eof, l, more);
    PlaceIsIrrelevant(cfg, Head(ts, eof), l);
  }

  lemma ReadsMissing(cfg: Config, eof: nat, toks: seq<Token>, depth: nat, cur: Node, lead: Comments,
                     more: seq<Lexeme>)
    requires depth <= STACK_LIMIT && Proper(cfg, Missing(lead)) && SignsOf(toks) == lead + more
    requires Follows(Missing(lead), more)
    ensures var r := ReadValue(cfg, eof, toks, depth, cur);
            r.status == Ok && Strip(r.val) == Leaf(Null) && SignsOf(r.rest) == more
  {
    hide SkipCommentTokens, ReadMembers, ReadArray, DecodeScalar, DecodeLiteral, SignsOf, AreComments;
    SkipsLead(cfg, toks, lead, more);
    assert more == [more[0]] + more[1..];
    Next(SkipCommentTokens(cfg, toks), eof, more[0], more[1..]);
  }

  /** An opening bracket or brace. */
  lemma Opens(cfg: Config, eof: nat, toks: seq<Token>, depth: nat, cur: Node, lead: Comments, kind: Kind,
              tail: seq<Lexeme>)
    requires depth <= STACK_LIMIT && AreComments(lead) && (lead != [] ==> cfg.allowComments)
    requires SignsOf(toks) == lead + ([Punct(kind)] + tail)
    ensures kind == ArrayBegin || kind == ObjectBegin ==>
              var ts := SkipCommentTokens(cfg, toks);
              var a := ReadArray(cfg, eof, Tail(ts), depth);
              var m := ReadMembers(cfg, eof, Tail(ts), depth, [], []);
              && SignsOf(Tail(ts)) == tail
              && ReadValue(cfg, eof, toks, depth, cur) ==
                 if kind == ArrayBegin then
                   Result(a.status, a.pos, a.rest,
                          ArrNode(a.val, Head(ts, eof).start, if a.status == Aborted then cur.limit else a.pos),
                          a.errors)
                 else
                   Result(m.status, m.pos, m.rest,
                          ObjNode(PutAll([], m.val), Head(ts, eof).start,
                                  if m.status == Aborted then cur.limit else m.pos), m.errors)
  {
    hide ReadArray, ReadMembers, SkipCommentTokens, PutAll, SignsOf, AreComments;
    if kind == ArrayBegin || kind == ObjectBegin {
      SkipsLead(cfg, toks, lead, [Punct(kind)] + tail);
      Next(SkipCommentTokens(cfg, toks), eof, Punct(kind), tail);
    }
  }

  // ---------------------------------------------------------------- arrays

  lemma {:induction false} ReadsSequence(cfg: Config, eof: nat, toks: seq<Token>, depth: nat, cur: Node,
                                         lead: Comments, ps: seq<Part>, more: seq<Lexeme>)
    requires depth <= STACK_LIMIT && Proper(cfg, Sequence(lead, ps))
    requires SignsOf(toks) == Written(Sequence(lead, ps)) + more
    ensures var r := ReadValue(cfg, eof, toks, depth, cur);
            && (r.status == Ok <==> ReadableParts(cfg, ps) && depth + PartsHeight(ps) <= STACK_LIMIT)
            && (ReadableParts(cfg, ps) && r.status != Ok ==> r.status == Aborted)
            && (r.status == Ok ==> Strip(r.val) == Arr(MeaningParts(cfg, ps)) && SignsOf(r.rest) == more)
    decreases ps, 3
  {
    hide ReadArray, ReadValue, WrittenParts, SignsOf, AreComments, Strip, SkipCommentTokens, ProperParts, MeaningParts,
      PartsHeight, ReadableParts;
    var body := if ps == [] then [Punct(ArrayEnd)] else WrittenParts(ps);
    Regroup(lead, [Punct(ArrayBegin)], body, more);
    Reassociate(lead, [Punct(ArrayBegin)], body);
    Reassociate([Punct(ArrayBegin)], body, more);
    Opens(cfg, eof, toks, depth, cur, lead, ArrayBegin, body + more);
    var rest := Tail(SkipCommentTokens(cfg, toks));
    ReadsArray(cfg, eof, rest, depth, ps, more);
    var a := ReadArray(cfg, eof, rest, depth);
    StripArr(a.val, Head(SkipCommentTokens(cfg, toks), eof).start, a.pos);
  }

  lemma {:induction false} ReadsArray(cfg: Config, eof: nat, toks: seq<Token>, depth: nat, ps: seq<Part>,
                                      more: seq<Lexeme>)
    requires depth <= STACK_LIMIT && ProperParts(cfg, ps) && ps != [Part(Missing([]), [])]
    requires SignsOf(toks) == (if ps == [] then [Punct(ArrayEnd)] else WrittenParts(ps)) + more
    ensures var r := ReadArray(cfg, eof, toks, depth);
            && (r.status == Ok <==> ReadableParts(cfg, ps) && depth + PartsHeight(ps) <= STACK_LIMIT)
            && (ReadableParts(cfg, ps) && r.status != Ok ==> r.status == Aborted)
            && (r.status == Ok ==> StripAll(r.val) == MeaningParts(cfg, ps) && SignsOf(r.rest) == more)
    decreases ps, 2
  {
    hide ReadElements, WrittenParts, SignsOf, AreComments, Strip, ProperParts, MeaningParts, PartsHeight,
      ReadableParts;
    NoParts(cfg);
    if ps == [] {
      Next(toks, eof, Punct(ArrayEnd), more);
    } else {
      PartsDoNotClose(cfg, ps);
      var w := WrittenParts(ps);
      assert w + more == [w[0]] + (w[1..] + more);
      Next(toks, eof, w[0], w[1..] + more);
      ReadsParts(cfg, eof, toks, depth, [], ps, more);
    }
  }

  lemma NoParts(cfg: Config)
    ensures WrittenParts([]) == [] && MeaningParts(cfg, []) == [] && PartsHeight([]) == 0
    ensures ProperParts(cfg, []) && ReadableParts(cfg, [])
  {
  }

  /** No list of elements starts with a closing bracket. */
  lemma PartsDoNotClose(cfg: Config, ps: seq<Part>)
    requires ProperParts(cfg, ps) && ps != [] && ps != [Part(Missing([]), [])]
    ensures WrittenParts(ps) != [] && WrittenParts(ps)[0].kind != ArrayEnd
  {
    hide ProperParts, WrittenBindings;
    PartsStep(cfg, ps);
    var x := ps[0].val;
    if x.lead != [] {
      assert x.lead[0] in x.lead;
      assert Written(x)[0] == x.lead[0];
    }
  }

  /** The first element, and the lists after it. */
  lemma PartsStep(cfg: Config, ps: seq<Part>)
    requires ps != []
    ensures WrittenParts(ps) ==
            Written(ps[0].val) + (ps[0].gap + ([Punct(PartStop(ps))] + WrittenParts(ps[1..])))
    ensures ProperParts(cfg, ps) <==>
              && Proper(cfg, ps[0].val) && AreComments(ps[0].gap) && (ps[0].val.Missing? ==> ps[0].gap == [])
              && ProperParts(cfg, ps[1..])
    ensures MeaningParts(cfg, ps) == [Meaning(cfg, ps[0].val)] + MeaningParts(cfg, ps[1..])
    ensures PartsHeight(ps) == Max(Height(ps[0].val), PartsHeight(ps[1..]))
    ensures ReadableParts(cfg, ps) == (Readable(cfg, ps[0].val) && ReadableParts(cfg, ps[1..]))
  {
    hide Written, Proper, AreComments, Meaning, Height, Readable;
  }

  lemma {:induction false} ReadsParts(cfg: Config, eof: nat, toks: seq<Token>, depth: nat, acc: seq<Node>,
                                      ps: seq<Part>, more: seq<Lexeme>)
    requires ps != [] && depth <= STACK_LIMIT && ProperParts(cfg, ps) && SignsOf(toks) == WrittenParts(ps) + more
    ensures var r := ReadElements(cfg, eof, toks, depth, acc);
            && (r.status == Ok <==> ReadableParts(cfg, ps) && depth + PartsHeight(ps) <= STACK_LIMIT)
            && (ReadableParts(cfg, ps) && r.status != Ok ==> r.status == Aborted)
            && (r.status == Ok ==>
                  StripAll(r.val) == StripAll(acc) + MeaningParts(cfg, ps) && SignsOf(r.rest) == more)
    decreases ps, 1
  {
    hide ReadValue, WrittenParts, Written, SignsOf, AreComments, Strip, StripAll, Proper, ProperParts, Meaning,
      MeaningParts, PartsHeight, Height, Readable, ReadableParts, DropComments, Recover, ReadElements, Signs,
      Sign;
    PartsStep(cfg, ps);
    var x, gap, stop, rest := ps[0].val, ps[0].gap, PartStop(ps), WrittenParts(ps[1..]);
    RegroupFour(Written(x), gap, [Punct(stop)], rest, more);
    var after := gap + ([Punct(stop)] + (rest + more));
    assert Follows(x, after);
    ReadsForm(cfg, eof, toks, depth + 1, NULL_NODE, x, after);
    ElementsRound(cfg, eof, toks, depth, acc);
    var child := ReadValue(cfg, eof, toks, depth + 1, NULL_NODE);
    if child.status == Ok {
      DropsComments(child.rest, gap, [Punct(stop)] + (rest + more));
      var ts := DropComments(child.rest);
      Next(ts, eof, Punct(stop), rest + more);
      GrowsParts(acc, child.val);
      if |ps| == 1 {
        NoParts(cfg);
        assert ps[1..] == [];
        assert rest == [] && rest + more == more;
      } else {
        ReadsParts(cfg, eof, Tail(ts), depth, acc + [child.val], ps[1..], more);
      }
    }
  }

  lemma RegroupFour<T>(a: seq<T>, b: seq<T>, c: seq<T>, d: seq<T>, e: seq<T>)
    ensures a + (b + (c + d)) + e == a + (b + (c + (d + e)))
  {
  }

  lemma GrowsParts(acc: seq<Node>, n: Node)
    ensures StripAll(acc + [n]) == StripAll(acc) + [Strip(n)]
  {
    hide Strip;
  }

  // ---------------------------------------------------------------- objects

  lemma {:induction false} ReadsMapping(cfg: Config, eof: nat, toks: seq<Token>, depth: nat, cur: Node,
                                        lead: Comments, bs: seq<Binding>, end: Option<Comments>, more: seq<Lexeme>)
    requires depth <= STACK_LIMIT && Proper(cfg, Mapping(lead, bs, end))
    requires SignsOf(toks) == Written(Mapping(lead, bs, end)) + more
    ensures var r := ReadValue(cfg, eof, toks, depth, cur);
            && (r.status == Ok <==> ReadableBindings(cfg, bs) && depth + BindingsHeight(bs) <= STACK_LIMIT)
            && (ReadableBindings(cfg, bs) && r.status != Ok ==> r.status == Aborted)
            && (r.status == Ok ==>
                  Strip(r.val) == Obj(PutAll([], MeaningBindings(cfg, bs))) && SignsOf(r.rest) == more)
    decreases bs, 3
  {
    hide ReadMembers, ReadValue, WrittenBindings, WrittenEnd, SignsOf, AreComments, Strip, SkipCommentTokens,
      ProperBindings, MeaningBindings, BindingsHeight, ReadableBindings, PutAll;
    var body := WrittenBindings(bs) + WrittenEnd(end);
    Regroup(lead, [Punct(ObjectBegin)], body, more);
    Reassociate(lead, [Punct(ObjectBegin)], body);
    Reassociate([Punct(ObjectBegin)], body, more);
    Opens(cfg, eof, toks, depth, cur, lead, ObjectBegin, body + more);
    var ts := SkipCommentTokens(cfg, toks);
    Reassociate(WrittenBindings(bs), WrittenEnd(end), more);
    ReadsBindings(cfg, eof, Tail(ts), depth, [], [], bs, end, more);
    var m := ReadMembers(cfg, eof, Tail(ts), depth, [], []);
    if m.status == Ok {
      assert [] + MeaningBindings(cfg, bs) == MeaningBindings(cfg, bs);
      StripObj(PutAll([], m.val), Head(ts, eof).start, m.pos);
      StripPutAll(m.val);
    }
  }

  lemma NoBindings(cfg: Config, last: Bytes, end: Option<Comments>)
    ensures WrittenBindings([]) == [] && MeaningBindings(cfg, []) == [] && BindingsHeight([]) == 0
    ensures ReadableBindings(cfg, []) && StripMembers([]) == []
    ensures ProperBindings(cfg, last, [], end) ==> last == [] && end.Some? && AreComments(end.value)
  {
    hide AreComments;
  }

  /** The first member, and the lists after it. */
  lemma BindingsStep(cfg: Config, last: Bytes, bs: seq<Binding>, end: Option<Comments>)
    requires bs != []
    ensures WrittenBindings(bs) == bs[0].lead + ([bs[0].name, Punct(MemberSeparator)]
            + (Written(bs[0].val) + (bs[0].gap + ([bs[0].stop] + WrittenBindings(bs[1..])))))
    ensures ProperBindings(cfg, last, bs, end) <==>
              var b := bs[0];
              && (b.name.kind == StringToken || (b.name.kind == NumberToken && cfg.allowNumericKeys))
              && AreComments(b.lead) && AreComments(b.gap)
              && Proper(cfg, b.val) && (b.val.Missing? ==> b.gap == [])
              && b.stop.kind != Comment && Sign(b.stop) == b.stop
              && (b.stop.kind == ObjectEnd ==> |bs| == 1 && end.None?)
              && (b.stop.kind != ObjectEnd ==>
                    && (b.gap == [] ==> b.stop.kind == ArraySeparator)
                    && ProperBindings(cfg, NameText(cfg, b), bs[1..], end))
    ensures MeaningBindings(cfg, bs) ==
            [Entry(NameText(cfg, bs[0]), Meaning(cfg, bs[0].val))] + MeaningBindings(cfg, bs[1..])
    ensures BindingsHeight(bs) == Max(Height(bs[0].val), BindingsHeight(bs[1..]))
    ensures ReadableBindings(cfg, bs) ==
            (NameOf(cfg, Bare(bs[0].name)).Name? && Readable(cfg, bs[0].val) && ReadableBindings(cfg, bs[1..]))
  {
    hide Written, Proper, AreComments, Meaning, Height, Readable, NameOf, NameText, Sign;
  }

  /** A closing brace where a member could start. */
  lemma ReadsEnd(cfg: Config, eof: nat, toks: seq<Token>, depth: nat, acc: seq<Entry<Node>>, comments: Comments,
                 more: seq<Lexeme>)
    requires AreComments(comments) && SignsOf(toks) == comments + [Punct(ObjectEnd)] + more
    ensures var r := ReadMembers(cfg, eof, toks, depth, acc, []);
            r.status == Ok && r.val == acc && SignsOf(r.rest) == more
  {
    hide DropComments, AfterMember, ReadValue, SignsOf, AreComments, NameOf;
    Reassociate(comments, [Punct(ObjectEnd)], more);
    DropsComments(toks, comments, [Punct(ObjectEnd)] + more);
    Next(DropComments(toks), eof, Punct(ObjectEnd), more);
  }

  /** The member loop reads a name and a colon, and goes on to the value. */
  lemma ReadsName(cfg: Config, eof: nat, toks: seq<Token>, depth: nat, acc: seq<Entry<Node>>, last: Bytes,
                  lead: Comments, l: Lexeme, after: seq<Lexeme>)
    requires AreComments(lead) && IsScalarKind(l.kind)
    requires SignsOf(toks) == lead + ([l, Punct(MemberSeparator)] + after)
    ensures var rest := Tail(Tail(DropComments(toks)));
            var name := NameOf(cfg, Bare(l));
            && SignsOf(rest) == after
            && (name.Name? ==>
                  var child := ReadValue(cfg, eof, rest, depth + 1, Member(acc, name.name));
                  && |child.rest| < |toks|
                  && ReadMembers(cfg, eof, toks, depth, acc, last) ==
                     AfterMember(cfg, eof, |toks|, depth, acc + [Entry(name.name, child.val)], name.name, child))
            && (!name.Name? ==> ReadMembers(cfg, eof, toks, depth, acc, last).status == Failed)
  {
    hide ReadValue, AfterMember, NameOf, Member, DropComments, SignsOf, AreComments, Recover;
    assert [l, Punct(MemberSeparator)] + after == [l] + ([Punct(MemberSeparator)] + after);
    DropsComments(toks, lead, [l] + ([Punct(MemberSeparator)] + after));
    var ts := DropComments(toks);
    Next(ts, eof, l, [Punct(MemberSeparator)] + after);
    Next(Tail(ts), eof, Punct(MemberSeparator), after);
    PlaceIsIrrelevant(cfg, Head(ts, eof), l);
  }

  /** After a member: a closing brace ends the object, a separator continues it. */
  lemma ReadsStop(cfg: Config, eof: nat, bound: nat, depth: nat, acc: seq<Entry<Node>>, name: Bytes,
                  child: Result<Node>, gap: Comments, stop: Lexeme, tail: seq<Lexeme>)
    requires child.status == Ok && |child.rest| < bound && child.errors == []
    requires AreComments(gap) && stop.kind != Comment && Sign(stop) == stop
    requires stop.kind == ObjectEnd || stop.kind == ArraySeparator || gap != []
    requires SignsOf(child.rest) == gap + ([stop] + tail)
    ensures var ts := DropComments(child.rest);
            && SignsOf(Tail(ts)) == tail
            && AfterMember(cfg, eof, bound, depth, acc, name, child) ==
               if stop.kind == ObjectEnd then Result(Ok, Head(ts, eof).end, Tail(ts), acc, [])
               else ReadMembers(cfg, eof, Tail(ts), depth, acc, name)
  {
    hide ReadMembers, DropComments, SignsOf, AreComments;
    DropsComments(child.rest, gap, [stop] + tail);
    Next(DropComments(child.rest), eof, stop, tail);
    if gap == [] {
      assert gap + ([stop] + tail) == [stop] + tail;
      Next(child.rest, eof, stop, tail);
    } else {
      FirstComment(child.rest, gap, [stop] + tail);
    }
  }

  lemma {:induction false} ReadsBindings(cfg: Config, eof: nat, toks: seq<Token>, depth: nat, acc: seq<Entry<Node>>,
                                         last: Bytes, bs: seq<Binding>, end: Option<Comments>, more: seq<Lexeme>)
    requires depth <= STACK_LIMIT && ProperBindings(cfg, last, bs, end)
    requires SignsOf(toks) == WrittenBindings(bs) + (WrittenEnd(end) + more)
    ensures var r := ReadMembers(cfg, eof, toks, depth, acc, last);
            && (r.status == Ok <==> ReadableBindings(cfg, bs) && depth + BindingsHeight(bs) <= STACK_LIMIT)
            && (ReadableBindings(cfg, bs) && r.status != Ok ==> r.status == Aborted)
            && (r.status == Ok ==>
                  StripMembers(r.val) == StripMembers(acc) + MeaningBindings(cfg, bs) && SignsOf(r.rest) == more)
    decreases bs, 2
  {
    hide ReadMembers, ReadValue, AfterMember, WrittenBindings, Written, SignsOf, AreComments, Strip, Proper,
      ProperBindings, Meaning, MeaningBindings, BindingsHeight, Height, Readable, ReadableBindings, DropComments,
      NameOf, Member;
    if bs == [] {
      NoBindings(cfg, last, end);
      assert [] + (WrittenEnd(end) + more) == WrittenEnd(end) + more;
      ReadsEnd(cfg, eof, toks, depth, acc, end.value, more);
      assert StripMembers(acc) + [] == StripMembers(acc);
    } else {
      BindingsStep(cfg, last, bs, end);
      var b, rest := bs[0], WrittenBindings(bs[1..]) + (WrittenEnd(end) + more);
      RegroupBinding(b, WrittenBindings(bs[1..]), WrittenEnd(end) + more);
      var tail := b.gap + ([b.stop] + rest);
      ReadsName(cfg, eof, toks, depth, acc, last, b.lead, b.name, Written(b.val) + tail);
      if NameOf(cfg, Bare(b.name)).Name? {
        var name := NameOf(cfg, Bare(b.name)).name;
        var after := Tail(Tail(DropComments(toks)));
        ReadsForm(cfg, eof, after, depth + 1, Member(acc, name), b.val, tail);
        var child := ReadValue(cfg, eof, after, depth + 1, Member(acc, name));
        ReadsRest(cfg, eof, |toks|, depth, acc, bs, end, more, name, child);
      }
    }
  }

  lemma RegroupBinding(b: Binding, rest: seq<Lexeme>, more: seq<Lexeme>)
    ensures b.lead + ([b.name, Punct(MemberSeparator)] + (Written(b.val) + (b.gap + ([b.stop] + rest)))) + more ==
            b.lead + ([b.name, Punct(MemberSeparator)] + (Written(b.val) + (b.gap + ([b.stop] + (rest + more)))))
  {
    hide Written;
    RegroupFour(Written(b.val), b.gap, [b.stop], rest, more);
    Regroup(b.lead, [b.name, Punct(MemberSeparator)], Written(b.val) + (b.gap + ([b.stop] + rest)), more);
    Reassociate(b.lead, [b.name, Punct(MemberSeparator)], Written(b.val) + (b.gap + ([b.stop] + rest)));
  }

  /** ReadsBindings from the end of a value on. */
  lemma {:induction false} ReadsRest(cfg: Config, eof: nat, bound: nat, depth: nat, acc: seq<Entry<Node>>,
                                     bs: seq<Binding>, end: Option<Comments>, more: seq<Lexeme>, name: Bytes,
                                     child: Result<Node>)
    requires bs != [] && depth <= STACK_LIMIT
    requires exists last :: ProperBindings(cfg, last, bs, end)
    requires NameOf(cfg, Bare(bs[0].name)) == Name(name)
    requires |child.rest| < bound && |child.errors| == if child.status == Failed then 1 else 0
    requires child.status == Ok <==> Readable(cfg, bs[0].val) && depth + Height(bs[0].val) <= STACK_LIMIT
    requires Readable(cfg, bs[0].val) && child.status != Ok ==> child.status == Aborted
    requires child.status == Ok ==>
               && Strip(child.val) == Meaning(cfg, bs[0].val)
               && SignsOf(child.rest) ==
                  bs[0].gap + ([bs[0].stop] + (WrittenBindings(bs[1..]) + (WrittenEnd(end) + more)))
    ensures var r := AfterMember(cfg, eof, bound, depth, acc + [Entry(name, child.val)], name, child);
            && (r.status == Ok <==> ReadableBindings(cfg, bs) && depth + BindingsHeight(bs) <= STACK_LIMIT)
            && (ReadableBindings(cfg, bs) && r.status != Ok ==> r.status == Aborted)
            && (r.status == Ok ==>
                  StripMembers(r.val) == StripMembers(acc) + MeaningBindings(cfg, bs) && SignsOf(r.rest) == more)
    decreases bs, 1
  {
    hide ReadMembers, ReadValue, AfterMember, WrittenBindings, Written, SignsOf, AreComments, Strip, Proper,
      ProperBindings, Meaning, MeaningBindings, BindingsHeight, Height, Readable, ReadableBindings, DropComments,
      NameOf, StripMembers, WrittenEnd;
    var last :| ProperBindings(cfg, last, bs, end);
    BindingsStep(cfg, last, bs, end);
    var acc', b := acc + [Entry(name, child.val)], bs[0];
    var rest := WrittenBindings(bs[1..]) + (WrittenEnd(end) + more);
    if child.status != Ok {
      FailsAfter(cfg, eof, bound, depth, acc', name, child);
    } else {
      assert child.errors == [];
      ReadsStop(cfg, eof, bound, depth, acc', name, child, b.gap, b.stop, rest);
      GrowsBindings(acc, name, child.val);
      if b.stop.kind == ObjectEnd {
        assert bs[1..] == [];
        NoBindings(cfg, name, end);
        assert WrittenEnd(end) == [] by {
          NothingAtEnd(end);
        }
        assert rest == more;
      } else {
        ReadsBindings(cfg, eof, Tail(DropComments(child.rest)), depth, acc', name, bs[1..], end, more);
        Reassociate(StripMembers(acc), [Entry(name, Strip(child.val))], MeaningBindings(cfg, bs[1..]));
      }
    }
  }

  lemma NothingAtEnd(end: Option<Comments>)
    requires end.None?
    ensures WrittenEnd(end) == []
  {
  }

  lemma FailsAfter(cfg: Config, eof: nat, bound: nat, depth: nat, acc: seq<Entry<Node>>, name: Bytes,
                   child: Result<Node>)
    requires child.status != Ok && |child.rest| < bound && |child.errors| == if child.status == Failed then 1 else 0
    ensures AfterMember(cfg, eof, bound, depth, acc, name, child).status == child.status
  {
    hide ReadMembers, Recover;
  }

  lemma GrowsBindings(acc: seq<Entry<Node>>, name: Bytes, n: Node)
    ensures StripMembers(acc + [Entry(name, n)]) == StripMembers(acc) + [Entry(name, Strip(n))]
  {
    hide Strip;
  }

  // ---------------------------------------------------------------- what is read is a tree

  /** The comments that DropComments drops. */
  lemma {:induction false} Dropped(toks: seq<Token>) returns (lead: Comments)
    ensures AreComments(lead) && SignsOf(toks) == lead + SignsOf(DropComments(toks))
    ensures toks != [] && toks[0].kind != Comment ==> lead == []
    decreases |toks|
  {
    hide SignsOf, AreComments;
    NoComments();
    if toks != [] && toks[0].kind == Comment {
      var more := Dropped(toks[1..]);
      lead := [Punct(Comment)] + more;
      ConsSigns(toks);
      ConsComments(more);
      Reassociate([Punct(Comment)], more, SignsOf(DropComments(toks)));
    } else {
      lead := [];
      assert [] + SignsOf(toks) == SignsOf(toks);
    }
  }

  lemma NoComments()
    ensures AreComments([])
  {
  }

  lemma ConsComments(more: Comments)
    requires AreComments(more)
    ensures AreComments([Punct(Comment)] + more)
  {
  }

  lemma ConsSigns(toks: seq<Token>)
    requires toks != []
    ensures SignsOf(toks) == [Sign(LexemeOf(toks[0]))] + SignsOf(Tail(toks)) && SignsOf(toks) != []
  {
    hide Sign;
  }

  lemma Skipped(cfg: Config, toks: seq<Token>) returns (lead: Comments)
    ensures AreComments(lead) && (lead != [] ==> cfg.allowComments)
    ensures SignsOf(toks) == lead + SignsOf(SkipCommentTokens(cfg, toks))
  {
    hide SignsOf, AreComments, DropComments;
    if cfg.allowComments {
      lead := Dropped(toks);
    } else {
      lead := [];
      NoComments();
      assert [] + SignsOf(toks) == SignsOf(toks);
    }
  }

  /** `x` is read from the front of `toks`, and `rest` is left. */
  predicate IsFront(cfg: Config, toks: seq<Token>, x: Form, rest: seq<Token>) {
    Proper(cfg, x) && Readable(cfg, x) && SignsOf(toks) == Written(x) + SignsOf(rest) && Follows(x, SignsOf(rest))
  }

  /** Whatever is read without error is a readable tree. */
  lemma {:induction false} FormOf(cfg: Config, eof: nat, toks: seq<Token>, depth: nat, cur: Node) returns (x: Form)
    requires ReadValue(cfg, eof, toks, depth, cur).status == Ok
    ensures IsFront(cfg, toks, x, ReadValue(cfg, eof, toks, depth, cur).rest) && depth + Height(x) - 1 <= STACK_LIMIT
    decreases |toks|, 2
  {
    hide IsFront, SkipCommentTokens, ReadArray, ReadMembers, SignsOf, AreComments, PutAll, ScalarOf, Height;
    var lead := Skipped(cfg, toks);
    var ts := SkipCommentTokens(cfg, toks);
    var tok := Head(ts, eof);
    NothingDenotesNothing(cfg, eof);
    if tok.kind == ArrayBegin {
      var ps := PartsOf(cfg, eof, Tail(ts), depth);
      x := Sequence(lead, ps);
      ConsSigns(ts);
      IsSequence(cfg, toks, lead, ps, SignsOf(Tail(ts)), ReadArray(cfg, eof, Tail(ts), depth).rest);
      HeightOf(x);
    } else if tok.kind == ObjectBegin {
      var bs, end := BindingsOf(cfg, eof, Tail(ts), depth, [], []);
      x := Mapping(lead, bs, end);
      ConsSigns(ts);
      IsMapping(cfg, toks, lead, bs, end, SignsOf(Tail(ts)), ReadMembers(cfg, eof, Tail(ts), depth, [], []).rest);
      HeightOf(x);
    } else if ScalarOf(cfg, tok).Denotes? {
      x := Word(lead, Sign(LexemeOf(tok)));
      IsWord(cfg, toks, lead, ts);
      HeightOf(x);
    } else {
      x := Missing(lead);
      IsMissing(cfg, toks, lead, ts);
      HeightOf(x);
    }
  }

  lemma NothingDenotesNothing(cfg: Config, eof: nat)
    ensures ScalarOf(cfg, Head([], eof)) == NoScalar
  {
  }

  lemma HeightOf(x: Form)
    ensures Height(x) == match x
                         case Word(_, _) => 1
                         case Missing(_) => 1
                         case Sequence(_, ps) => 1 + PartsHeight(ps)
                         case Mapping(_, bs, _) => 1 + BindingsHeight(bs)
  {
  }

  lemma IsSequence(cfg: Config, toks: seq<Token>, lead: Comments, ps: seq<Part>, tail: seq<Lexeme>, rest: seq<Token>)
    requires AreComments(lead) && (lead != [] ==> cfg.allowComments)
    requires SignsOf(toks) == lead + ([Punct(ArrayBegin)] + tail)
    requires ps != [Part(Missing([]), [])] && ProperParts(cfg, ps) && ReadableParts(cfg, ps)
    requires tail == (if ps == [] then [Punct(ArrayEnd)] else WrittenParts(ps)) + SignsOf(rest)
    ensures IsFront(cfg, toks, Sequence(lead, ps), rest)
  {
    hide SignsOf, AreComments, WrittenParts, ProperParts, ReadableParts;
    var body := if ps == [] then [Punct(ArrayEnd)] else WrittenParts(ps);
    RegroupThree(lead, [Punct(ArrayBegin)], body, SignsOf(rest));
  }

  lemma RegroupThree<T>(a: seq<T>, b: seq<T>, c: seq<T>, d: seq<T>)
    ensures a + (b + (c + d)) == a + (b + c) + d
  {
  }

  lemma IsMapping(cfg: Config, toks: seq<Token>, lead: Comments, bs: seq<Binding>, end: Option<Comments>,
                  tail: seq<Lexeme>, rest: seq<Token>)
    requires AreComments(lead) && (lead != [] ==> cfg.allowComments)
    requires SignsOf(toks) == lead + ([Punct(ObjectBegin)] + tail)
    requires ProperBindings(cfg, [], bs, end) && ReadableBindings(cfg, bs)
    requires tail == WrittenBindings(bs) + (WrittenEnd(end) + SignsOf(rest))
    ensures IsFront(cfg, toks, Mapping(lead, bs, end), rest)
  {
    hide SignsOf, AreComments, WrittenBindings, WrittenEnd, ProperBindings, ReadableBindings;
    Reassociate(WrittenBindings(bs), WrittenEnd(end), SignsOf(rest));
    RegroupThree(lead, [Punct(ObjectBegin)], WrittenBindings(bs) + WrittenEnd(end), SignsOf(rest));
  }

  lemma IsWord(cfg: Config, toks: seq<Token>, lead: Comments, ts: seq<Token>)
    requires AreComments(lead) && (lead != [] ==> cfg.allowComments)
    requires SignsOf(toks) == lead + SignsOf(ts) && ts != [] && ScalarOf(cfg, ts[0]).Denotes?
    ensures IsFront(cfg, toks, Word(lead, Sign(LexemeOf(ts[0]))), Tail(ts))
  {
    hide SignsOf, AreComments, DecodeScalar, DecodeLiteral;
    ConsSigns(ts);
    var l := Sign(LexemeOf(ts[0]));
    PlaceIsIrrelevant(cfg, ts[0], l);
    Reassociate(lead, [l], SignsOf(Tail(ts)));
  }

  lemma IsMissing(cfg: Config, toks: seq<Token>, lead: Comments, ts: seq<Token>)
    requires AreComments(lead) && (lead != [] ==> cfg.allowComments) && cfg.allowDroppedNull
    requires SignsOf(toks) == lead + SignsOf(ts) && ts != [] && IsPlaceholder(ts[0].kind)
    ensures IsFront(cfg, toks, Missing(lead), ts)
  {
    hide SignsOf, AreComments;
    ConsSigns(ts);
  }

  lemma PartsOf(cfg: Config, eof: nat, toks: seq<Token>, depth: nat) returns (ps: seq<Part>)
    requires depth <= STACK_LIMIT && ReadArray(cfg, eof, toks, depth).status == Ok
    ensures ps != [Part(Missing([]), [])] && ProperParts(cfg, ps) && ReadableParts(cfg, ps)
    ensures SignsOf(toks) == (if ps == [] then [Punct(ArrayEnd)] else WrittenParts(ps))
                             + SignsOf(ReadArray(cfg, eof, toks, depth).rest)
    ensures depth + PartsHeight(ps) <= STACK_LIMIT
    decreases |toks|, 4
  {
    hide ReadElements, SignsOf, WrittenParts;
    if Head(toks, eof).kind == ArrayEnd {
      ps := [];
      ConsSigns(toks);
    } else {
      ps := ElementsOf(cfg, eof, toks, depth, []);
      StartsOpen(toks, ps, ReadElements(cfg, eof, toks, depth, []).rest);
    }
  }

  lemma StartsOpen(toks: seq<Token>, ps: seq<Part>, rest: seq<Token>)
    requires SignsOf(toks) == WrittenParts(ps) + SignsOf(rest) && Head(toks, 0).kind != ArrayEnd
    ensures ps != [Part(Missing([]), [])]
  {
    hide SignsOf, WrittenParts;
    OnlyMissing();
    if toks != [] {
      ConsSigns(toks);
    }
  }

  lemma OnlyMissing()
    ensures WrittenParts([Part(Missing([]), [])]) == [Punct(ArrayEnd)]
  {
    var ps := [Part(Missing([]), [])];
    assert ps[1..] == [];
  }

  /** What follows an element. */
  lemma ElementAhead(cfg: Config, eof: nat, toks: seq<Token>, depth: nat, acc: seq<Node>)
    requires ReadElements(cfg, eof, toks, depth, acc).status == Ok
    ensures var child := ReadValue(cfg, eof, toks, depth + 1, NULL_NODE);
            var ts := DropComments(child.rest);
            && child.status == Ok && ts != [] && (ts[0].kind == ArrayEnd || ts[0].kind == ArraySeparator)
            && |Tail(ts)| < |toks|
            && ReadElements(cfg, eof, toks, depth, acc) ==
               if ts[0].kind == ArrayEnd then Result(Ok, ts[0].end, Tail(ts), acc + [child.val], [])
               else ReadElements(cfg, eof, Tail(ts), depth, acc + [child.val])
  {
    hide ReadValue, DropComments, Recover;
    ElementsRound(cfg, eof, toks, depth, acc);
  }

  lemma {:induction false} ElementsOf(cfg: Config, eof: nat, toks: seq<Token>, depth: nat, acc: seq<Node>)
    returns (ps: seq<Part>)
    requires depth <= STACK_LIMIT && ReadElements(cfg, eof, toks, depth, acc).status == Ok
    ensures ps != [] && ProperParts(cfg, ps) && ReadableParts(cfg, ps)
    ensures SignsOf(toks) == WrittenParts(ps) + SignsOf(ReadElements(cfg, eof, toks, depth, acc).rest)
    ensures depth + PartsHeight(ps) <= STACK_LIMIT
    decreases |toks|, 3
  {
    hide *;
    ElementAhead(cfg, eof, toks, depth, acc);
    var child := ReadValue(cfg, eof, toks, depth + 1, NULL_NODE);
    var x := FormOf(cfg, eof, toks, depth + 1, NULL_NODE);
    var gap := Dropped(child.rest);
    NothingAfterMissing(cfg, toks, x, child.rest, gap);
    var ts := DropComments(child.rest);
    var more := [];
    NoParts(cfg);
    if ts[0].kind == ArraySeparator {
      more := ElementsOf(cfg, eof, Tail(ts), depth, acc + [child.val]);
    }
    ps := [Part(x, gap)] + more;
    JoinsParts(cfg, toks, x, gap, child.rest, ts, more, ReadElements(cfg, eof, toks, depth, acc).rest);
    HighestOf(Height(x), PartsHeight(more), depth);
  }

  lemma HighestOf(a: nat, b: nat, depth: nat)
    requires depth + a <= STACK_LIMIT && depth + b <= STACK_LIMIT
    ensures depth + Max(a, b) <= STACK_LIMIT
  {
  }

  /** An element, its stop and the elements after it. */
  lemma JoinsParts(cfg: Config, toks: seq<Token>, x: Form, gap: Comments, middle: seq<Token>, ts: seq<Token>,
                   more: seq<Part>, rest: seq<Token>)
    requires IsFront(cfg, toks, x, middle) && AreComments(gap) && (x.Missing? ==> gap == [])
    requires SignsOf(middle) == gap + SignsOf(ts) && ts != []
    requires ts[0].kind == if more == [] then ArrayEnd else ArraySeparator
    requires ProperParts(cfg, more) && ReadableParts(cfg, more)
    requires SignsOf(Tail(ts)) == WrittenParts(more) + SignsOf(rest)
    ensures var ps := [Part(x, gap)] + more;
            && ProperParts(cfg, ps) && ReadableParts(cfg, ps) && SignsOf(toks) == WrittenParts(ps) + SignsOf(rest)
            && PartsHeight(ps) == Max(Height(x), PartsHeight(more))
  {
    hide SignsOf, Written, WrittenParts, Proper, ProperParts, Readable, ReadableParts, AreComments, Height, PartsHeight,
      IsFront, Meaning, MeaningParts;
    var ps := [Part(x, gap)] + more;
    assert ps[1..] == more;
    PartsStep(cfg, ps);
    IsPart(cfg, toks, x, gap, middle);
    ConsSigns(ts);
    RegroupFour(Written(x), gap, [Punct(PartStop(ps))], WrittenParts(more), SignsOf(rest));
  }

  /** A missing value is not followed by a comment. */
  lemma NothingAfterMissing(cfg: Config, toks: seq<Token>, x: Form, rest: seq<Token>, gap: Comments)
    requires IsFront(cfg, toks, x, rest) && (rest != [] && rest[0].kind != Comment ==> gap == [])
    ensures x.Missing? ==> gap == [] && rest != [] && IsPlaceholder(rest[0].kind)
  {
    hide SignsOf, Proper, Readable, Written;
    if x.Missing? {
      SignsNonempty(rest);
      ConsSigns(rest);
    }
  }

  lemma SignsNonempty(toks: seq<Token>)
    requires SignsOf(toks) != []
    ensures toks != []
  {
  }

  lemma IsPart(cfg: Config, toks: seq<Token>, x: Form, gap: Comments, rest: seq<Token>)
    requires IsFront(cfg, toks, x, rest)
    ensures Proper(cfg, x) && Readable(cfg, x) && SignsOf(toks) == Written(x) + SignsOf(rest)
  {
    hide SignsOf, Proper, Readable, Written;
  }

  /** The name and the colon at the head of the member loop. */
  lemma NameAhead(cfg: Config, eof: nat, toks: seq<Token>, depth: nat, acc: seq<Entry<Node>>, last: Bytes)
    requires ReadMembers(cfg, eof, toks, depth, acc, last).status == Ok
    requires Head(DropComments(toks), eof).kind != ObjectEnd || last != []
    ensures var ts := DropComments(toks);
            && ts != [] && Tail(ts) != [] && NameOf(cfg, ts[0]).Name? && Tail(ts)[0].kind == MemberSeparator
            && var name := NameOf(cfg, ts[0]).name;
               var child := ReadValue(cfg, eof, Tail(Tail(ts)), depth + 1, Member(acc, name));
               && |child.rest| < |toks|
               && ReadMembers(cfg, eof, toks, depth, acc, last) ==
                  AfterMember(cfg, eof, |toks|, depth, acc + [Entry(name, child.val)], name, child)
  {
    hide AfterMember, ReadValue, DropComments, Recover, DecodeScalar, DecodeLiteral, Member;
  }

  /** What follows a value in the member loop. */
  lemma StopAhead(cfg: Config, eof: nat, bound: nat, depth: nat, acc: seq<Entry<Node>>, name: Bytes,
                  child: Result<Node>)
    requires |child.rest| < bound && |child.errors| == if child.status == Failed then 1 else 0
    requires AfterMember(cfg, eof, bound, depth, acc, name, child).status == Ok
    ensures child.status == Ok && child.rest != []
    ensures child.rest[0].kind == ObjectEnd || child.rest[0].kind == ArraySeparator || child.rest[0].kind == Comment
    ensures var ts := DropComments(child.rest);
            && ts != []
            && AfterMember(cfg, eof, bound, depth, acc, name, child) ==
               if ts[0].kind == ObjectEnd then Result(Ok, ts[0].end, Tail(ts), acc, [])
               else ReadMembers(cfg, eof, Tail(ts), depth, acc, name)
  {
    hide ReadMembers, Recover;
    if DropComments(child.rest) == [] {
      NoMembers(cfg, eof, depth, acc, name);
    }
  }

  lemma NoMembers(cfg: Config, eof: nat, depth: nat, acc: seq<Entry<Node>>, last: Bytes)
    ensures ReadMembers(cfg, eof, [], depth, acc, last).status == Failed
  {
    hide AfterMember, ReadValue, Recover;
  }

  lemma EmptyEnd(cfg: Config, eof: nat, toks: seq<Token>, depth: nat, acc: seq<Entry<Node>>, lead: Comments)
    requires AreComments(lead) && SignsOf(toks) == lead + SignsOf(DropComments(toks))
    requires Head(DropComments(toks), eof).kind == ObjectEnd
    ensures ProperBindings(cfg, [], [], Some(lead)) && ReadableBindings(cfg, []) && BindingsHeight([]) == 0
    ensures SignsOf(toks) == WrittenBindings([])
            + (WrittenEnd(Some(lead)) + SignsOf(ReadMembers(cfg, eof, toks, depth, acc, []).rest))
  {
    hide SignsOf, DropComments, AreComments, AfterMember, ReadValue, NameOf;
    var ts := DropComments(toks);
    ConsSigns(ts);
    Reassociate(lead, [Punct(ObjectEnd)], SignsOf(Tail(ts)));
    assert [] + SignsOf(toks) == SignsOf(toks);
  }

  lemma {:induction false} DropsAll(toks: seq<Token>)
    ensures DropComments(toks) != [] ==> DropComments(toks)[0].kind != Comment
  {
  }

  /** Without a comment after the value, the next token is a comma or a closing brace. */
  lemma CommaOrBrace(rest: seq<Token>, gap: Comments)
    requires SignsOf(rest) == gap + SignsOf(DropComments(rest)) && rest != [] && DropComments(rest) != []
    requires rest[0].kind == ObjectEnd || rest[0].kind == ArraySeparator || rest[0].kind == Comment
    ensures DropComments(rest)[0].kind != Comment
    ensures gap == [] ==> DropComments(rest)[0].kind == ObjectEnd || DropComments(rest)[0].kind == ArraySeparator
  {
    hide SignsOf, DropComments;
    DropsAll(rest);
    ConsSigns(rest);
    ConsSigns(DropComments(rest));
    if gap == [] {
      assert gap + SignsOf(DropComments(rest)) == SignsOf(DropComments(rest));
      assert SignsOf(rest)[0] == SignsOf(DropComments(rest))[0];
    }
  }

  lemma NothingMore(tail: seq<Lexeme>)
    ensures WrittenBindings([]) + (WrittenEnd(None) + tail) == tail
  {
  }

  /** A member whose name is at the head of `ts`, whose value ends before `rest`, and which `next` follows. */
  lemma IsBinding(cfg: Config, toks: seq<Token>, lead: Comments, ts: seq<Token>, x: Form, gap: Comments,
                  rest: seq<Token>, next: seq<Token>)
    requires SignsOf(toks) == lead + SignsOf(ts) && SignsOf(rest) == gap + SignsOf(next)
    requires ts != [] && Tail(ts) != [] && Tail(ts)[0].kind == MemberSeparator && next != []
    requires NameOf(cfg, ts[0]).Name? && SignsOf(Tail(Tail(ts))) == Written(x) + SignsOf(rest)
    ensures var name, stop := Sign(LexemeOf(ts[0])), Sign(LexemeOf(next[0]));
            && SignsOf(toks) == lead + ([name, Punct(MemberSeparator)]
               + (Written(x) + (gap + ([stop] + SignsOf(Tail(next))))))
            && (name.kind == StringToken || (name.kind == NumberToken && cfg.allowNumericKeys))
            && NameOf(cfg, Bare(name)) == NameOf(cfg, ts[0])
            && stop.kind == next[0].kind && Sign(stop) == stop
  {
    hide SignsOf, Written, NameOf, Tail;
    ConsSigns(next);
    PlaceIsIrrelevant(cfg, ts[0], Sign(LexemeOf(ts[0])));
    NameKinds(cfg, ts[0]);
    TwoSigns(ts);
  }

  lemma NameKinds(cfg: Config, tok: Token)
    requires NameOf(cfg, tok).Name?
    ensures tok.kind == StringToken || (tok.kind == NumberToken && cfg.allowNumericKeys)
  {
    hide DecodeScalar, DecodeLiteral;
  }

  lemma TwoSigns(ts: seq<Token>)
    requires ts != [] && Tail(ts) != [] && Tail(ts)[0].kind == MemberSeparator
    ensures SignsOf(ts) == [Sign(LexemeOf(ts[0])), Punct(MemberSeparator)] + SignsOf(Tail(Tail(ts)))
  {
    hide SignsOf;
    ConsSigns(ts);
    ConsSigns(Tail(ts));
  }

  /** A member, its stop and the members after it. */
  lemma JoinsBindings(cfg: Config, toks: seq<Token>, last: Bytes, lead: Comments, ts: seq<Token>, x: Form,
                      gap: Comments, middle: seq<Token>, next: seq<Token>, more: seq<Binding>, end: Option<Comments>,
                      rest: seq<Token>)
    requires SignsOf(toks) == lead + SignsOf(ts) && AreComments(lead)
    requires ts != [] && Tail(ts) != [] && Tail(ts)[0].kind == MemberSeparator && NameOf(cfg, ts[0]).Name?
    requires IsFront(cfg, Tail(Tail(ts)), x, middle) && (x.Missing? ==> gap == [])
    requires SignsOf(middle) == gap + SignsOf(next) && AreComments(gap) && next != [] && next[0].kind != Comment
    requires gap == [] ==> next[0].kind == ObjectEnd || next[0].kind == ArraySeparator
    requires if next[0].kind == ObjectEnd then more == [] && end.None? && rest == Tail(next)
             else
               && ProperBindings(cfg, NameOf(cfg, ts[0]).name, more, end) && ReadableBindings(cfg, more)
               && SignsOf(Tail(next)) == WrittenBindings(more) + (WrittenEnd(end) + SignsOf(rest))
    ensures var bs := [Binding(lead, Sign(LexemeOf(ts[0])), x, gap, Sign(LexemeOf(next[0])))] + more;
            && ProperBindings(cfg, last, bs, end) && ReadableBindings(cfg, bs)
            && SignsOf(toks) == WrittenBindings(bs) + (WrittenEnd(end) + SignsOf(rest))
            && BindingsHeight(bs) == Max(Height(x), BindingsHeight(more))
  {
    hide SignsOf, AreComments, WrittenBindings, Written, ProperBindings, ReadableBindings, BindingsHeight, Height,
      IsFront, NameOf, WrittenEnd, Readable, Proper, Meaning, MeaningBindings, Sign;
    var b := Binding(lead, Sign(LexemeOf(ts[0])), x, gap, Sign(LexemeOf(next[0])));
    var bs := [b] + more;
    assert bs[1..] == more;
    IsPart(cfg, Tail(Tail(ts)), x, gap, middle);
    IsBinding(cfg, toks, lead, ts, x, gap, middle, next);
    BindingsStep(cfg, last, bs, end);
    NoBindings(cfg, last, end);
    NothingMore(SignsOf(Tail(next)));
    RegroupBinding(b, WrittenBindings(more), WrittenEnd(end) + SignsOf(rest));
  }

  lemma {:induction false} BindingsOf(cfg: Config, eof: nat, toks: seq<Token>, depth: nat, acc: seq<Entry<Node>>,
                                      last: Bytes)
    returns (bs: seq<Binding>, end: Option<Comments>)
    requires depth <= STACK_LIMIT && ReadMembers(cfg, eof, toks, depth, acc, last).status == Ok
    ensures ProperBindings(cfg, last, bs, end) && ReadableBindings(cfg, bs)
    ensures SignsOf(toks) ==
            WrittenBindings(bs) + (WrittenEnd(end) + SignsOf(ReadMembers(cfg, eof, toks, depth, acc, last).rest))
    ensures depth + BindingsHeight(bs) <= STACK_LIMIT
    decreases |toks|, 1
  {
    hide *;
    var lead := Dropped(toks);
    var ts := DropComments(toks);
    NoBindings(cfg, last, None);
    if Head(ts, eof).kind == ObjectEnd && last == [] {
      bs, end := [], Some(lead);
      EmptyEnd(cfg, eof, toks, depth, acc, lead);
    } else {
      NameAhead(cfg, eof, toks, depth, acc, last);
      var name := NameOf(cfg, ts[0]).name;
      var after := Tail(Tail(ts));
      var child := ReadValue(cfg, eof, after, depth + 1, Member(acc, name));
      var acc' := acc + [Entry(name, child.val)];
      StopAhead(cfg, eof, |toks|, depth, acc', name, child);
      var x := FormOf(cfg, eof, after, depth + 1, Member(acc, name));
      var gap := Dropped(child.rest);
      NothingAfterMissing(cfg, after, x, child.rest, gap);
      CommaOrBrace(child.rest, gap);
      var next := DropComments(child.rest);
      var more := [];
      end := None;
      if next[0].kind != ObjectEnd {
        more, end := BindingsOf(cfg, eof, Tail(next), depth, acc', name);
      }
      bs := [Binding(lead, Sign(LexemeOf(ts[0])), x, gap, Sign(LexemeOf(next[0])))] + more;
      JoinsBindings(cfg, toks, last, lead, ts, x, gap, child.rest, next, more, end,
                    ReadMembers(cfg, eof, toks, depth, acc, last).rest);
      HighestOf(Height(x), BindingsHeight(more), depth);
    }
  }

  // ---------------------------------------------------------------- documents

  /** The document consists of the tree `x` and of further tokens, which the reader ignores. */
  predicate IsWrittenAs(cfg: Config, t: Bytes, x: Form, more: seq<Lexeme>) {
    Proper(cfg, x) && Signs(Lex(t)) == Written(x) + more && Follows(x, more)
  }

  predicate Accepts(cfg: Config, x: Form) {
    Readable(cfg, x) && Height(x) <= 1000 && (cfg.strictRoot ==> x.Sequence? || x.Mapping?)
  }

  lemma StripIsLeaf(n: Node)
    ensures n.LeafNode? <==> Strip(n).Leaf?
  {
  }

  lemma MeaningIsLeaf(cfg: Config, x: Form)
    ensures Meaning(cfg, x).Leaf? <==> x.Word? || x.Missing?
  {
  }

  /**
   * A document that is written as a tree is accepted exactly when every scalar and name can be
   * decoded, the tree is at most 1000 deep and its root is a container if that is demanded; and
   * then it is read as the meaning of the tree.
   */
  lemma ReadsWritten(cfg: Config, t: Bytes, root: Node, x: Form, more: seq<Lexeme>)
    requires IsWrittenAs(cfg, t, x, more)
    ensures var p := Parse(cfg, t, root);
            && (p.status == Ok <==> Accepts(cfg, x))
            && (p.status == Ok ==> Strip(p.root) == Meaning(cfg, x) && p.errors == [])
            && (Readable(cfg, x) && Height(x) > 1000 ==> p.status == Aborted)
  {
    hide ReadValue, TokensFrom, Proper, Readable, Written, Follows, Height, Meaning, Strip, Signs;
    var toks := TokensFrom(t, 0);
    ReadsForm(cfg, |t|, toks, 1, root, x, more);
    StripIsLeaf(ReadValue(cfg, |t|, toks, 1, root).val);
    MeaningIsLeaf(cfg, x);
  }

  /**
   * For every document and every set of features: the reader accepts it if and only if its
   * tokens begin with a readable tree.
   */
  lemma AcceptedIff(cfg: Config, t: Bytes, root: Node)
    ensures Parse(cfg, t, root).status == Ok <==>
            exists x, more :: IsWrittenAs(cfg, t, x, more) && Accepts(cfg, x)
  {
    hide IsWrittenAs, Accepts, ReadValue, TokensFrom;
    if Parse(cfg, t, root).status == Ok {
      var toks := TokensFrom(t, 0);
      var x := FormOf(cfg, |t|, toks, 1, root);
      var rest := ReadValue(cfg, |t|, toks, 1, root).rest;
      FrontIsWritten(cfg, t, x, rest);
      ReadsWritten(cfg, t, root, x, SignsOf(rest));
    }
    forall x, more | IsWrittenAs(cfg, t, x, more) && Accepts(cfg, x) ensures Parse(cfg, t, root).status == Ok {
      ReadsWritten(cfg, t, root, x, more);
    }
  }

  lemma FrontIsWritten(cfg: Config, t: Bytes, x: Form, rest: seq<Token>)
    requires IsFront(cfg, TokensFrom(t, 0), x, rest)
    ensures IsWrittenAs(cfg, t, x, SignsOf(rest))
  {
    hide TokensFrom, Proper, Readable, Written, Follows, Signs;
  }
}
