/**
 * How two of the features act on a read: the strict root changes nothing but the verdict on
 * the root, and a dropped null lies before the text in exactly one case.
 */
module FeatureTheorems {
  import opened Bytes
  import opened Lexer
  import opened LexerTheorems
  import opened Values
  import opened ReaderSpec
  import opened ReaderTheorems

  // ---------------------------------------------------------------- the strict root

  /** The same features with any root allowed. */
  function Lenient(cfg: Config): Config {
    cfg.(strictRoot := false)
  }

  lemma LenientTokens(cfg: Config, tok: Token, toks: seq<Token>)
    ensures ScalarOf(Lenient(cfg), tok) == ScalarOf(cfg, tok) && NameOf(Lenient(cfg), tok) == NameOf(cfg, tok)
    ensures SkipCommentTokens(Lenient(cfg), toks) == SkipCommentTokens(cfg, toks)
  {
    hide DecodeLiteral, DropComments;
  }

  lemma {:induction false} ValueLenient(cfg: Config, eof: nat, toks: seq<Token>, d: nat, cur: Node)
    ensures ReadValue(Lenient(cfg), eof, toks, d, cur) == ReadValue(cfg, eof, toks, d, cur)
    decreases |toks|, 2
  {
    hide ReadMembers, ReadArray, ScalarOf, SkipCommentTokens, PutAll;
    var ts := SkipCommentTokens(cfg, toks);
    LenientTokens(cfg, Head(ts, eof), toks);
    if d <= STACK_LIMIT && ts != [] {
      if ts[0].kind == ObjectBegin {
        MembersLenient(cfg, eof, Tail(ts), d, [], []);
      } else if ts[0].kind == ArrayBegin {
        ArrayLenient(cfg, eof, Tail(ts), d);
      }
    }
  }

  lemma {:induction false} ArrayLenient(cfg: Config, eof: nat, toks: seq<Token>, d: nat)
    ensures ReadArray(Lenient(cfg), eof, toks, d) == ReadArray(cfg, eof, toks, d)
    decreases |toks|, 4
  {
    hide ReadElements;
    ElementsLenient(cfg, eof, toks, d, []);
  }

  lemma {:induction false} ElementsLenient(cfg: Config, eof: nat, toks: seq<Token>, d: nat, acc: seq<Node>)
    ensures ReadElements(Lenient(cfg), eof, toks, d, acc) == ReadElements(cfg, eof, toks, d, acc)
    decreases |toks|, 3
  {
    hide ReadValue, DropComments, Recover, ReadElements;
    ElementsRound(cfg, eof, toks, d, acc);
    ElementsRound(Lenient(cfg), eof, toks, d, acc);
    ValueLenient(cfg, eof, toks, d + 1, NULL_NODE);
    var child := ReadValue(cfg, eof, toks, d + 1, NULL_NODE);
    var ts := DropComments(child.rest);
    if Head(ts, eof).kind == ArraySeparator {
      ElementsLenient(cfg, eof, Tail(ts), d, acc + [child.val]);
    }
  }

  lemma {:induction false} MembersLenient(cfg: Config, eof: nat, toks: seq<Token>, d: nat, acc: seq<Entry<Node>>,
                                          last: Bytes)
    ensures ReadMembers(Lenient(cfg), eof, toks, d, acc, last) == ReadMembers(cfg, eof, toks, d, acc, last)
    decreases |toks|, 1
  {
    hide ReadValue, DropComments, Recover, NameOf, AfterMember, PutAll;
    var ts := DropComments(toks);
    var key := Head(ts, eof);
    LenientTokens(cfg, key, toks);
    if NameOf(cfg, key).Name? && ts != [] && Head(Tail(ts), eof).kind == MemberSeparator {
      var name := NameOf(cfg, key).name;
      ValueLenient(cfg, eof, Tail(Tail(ts)), d + 1, Member(acc, name));
      var child := ReadValue(cfg, eof, Tail(Tail(ts)), d + 1, Member(acc, name));
      AfterLenient(cfg, eof, |toks|, d, acc + [Entry(name, child.val)], name, child);
    }
  }

  lemma {:induction false} AfterLenient(cfg: Config, eof: nat, bound: nat, d: nat, acc: seq<Entry<Node>>, name: Bytes,
                                        child: Result<Node>)
    requires |child.rest| < bound && |child.errors| == if child.status == Failed then 1 else 0
    ensures AfterMember(Lenient(cfg), eof, bound, d, acc, name, child)
            == AfterMember(cfg, eof, bound, d, acc, name, child)
    decreases bound, 0
  {
    hide DropComments, Recover, ReadMembers;
    MembersLenient(cfg, eof, Tail(DropComments(child.rest)), d, acc, name);
  }

  /** The strict root changes nothing but the verdict on a root that is no array or object. */
  lemma StrictRootOnlyJudges(cfg: Config, t: Bytes, root: Node)
    ensures var p, q := Parse(cfg, t, root), Parse(Lenient(cfg), t, root);
            && q.root == p.root
            && (!cfg.strictRoot || !p.root.LeafNode? || q.status == Aborted ==> p == q)
            && (cfg.strictRoot && p.root.LeafNode? && q.status != Aborted ==> p.status == Failed)
  {
    hide ReadValue, TokensFrom;
    ValueLenient(cfg, |t|, TokensFrom(t, 0), 1, root);
  }

  // ---------------------------------------------------------------- dropped nulls

  /** No node starts before the text. */
  ghost predicate InText(n: Node) {
    n.start >= 0 &&
    match n
    case LeafNode(_, _, _) => true
    case ArrNode(es, _, _) => forall e | e in es :: InText(e)
    case ObjNode(ms, _, _) => forall m | m in ms :: InText(m.val)
  }

  predicate AfterStart(toks: seq<Token>) {
    forall i | 0 <= i < |toks| :: toks[i].start >= 1
  }

  lemma EndAfterStart(rest: seq<Token>, toks: seq<Token>)
    requires AfterStart(toks) && EndOf(rest, toks)
    ensures AfterStart(rest)
  {
    forall i | 0 <= i < |rest| ensures rest[i].start >= 1 {
      assert rest[i] == toks[|toks| - |rest| + i];
    }
  }

  ghost predicate MembersInText(ms: seq<Entry<Node>>) {
    forall m | m in ms :: InText(m.val)
  }

  lemma {:induction false} PutAllInText(acc: seq<Entry<Node>>)
    requires MembersInText(acc)
    ensures MembersInText(PutAll([], acc))
    decreases |acc|
  {
    hide InText;
    if acc != [] {
      var front, last := acc[..|acc| - 1], acc[|acc| - 1];
      assert MembersInText(front) && last in acc;
      PutAllInText(front);
      var ms := PutAll([], front);
      forall m | m in Put(ms, last.key, last.val) ensures InText(m.val) {
        assert m in ms || m == Entry(last.key, last.val);
      }
    }
  }

  lemma {:induction false} ValueInText(cfg: Config, eof: nat, toks: seq<Token>, d: nat, cur: Node)
    requires AfterStart(toks) && ReadValue(cfg, eof, toks, d, cur).status == Ok
    ensures InText(ReadValue(cfg, eof, toks, d, cur).val)
    decreases |toks|, 2
  {
    hide ReadMembers, ReadArray, ScalarOf, SkipCommentTokens, PutAll, EndOf;
    var ts := SkipCommentTokens(cfg, toks);
    SkipIsEnd(cfg, toks);
    EndAfterStart(ts, toks);
    ContainerInText(cfg, eof, ts, d);
  }

  /** What follows an opening bracket or brace, `ts` being at it. */
  lemma {:induction false} ContainerInText(cfg: Config, eof: nat, ts: seq<Token>, d: nat)
    requires AfterStart(Tail(ts))
    ensures var m := ReadMembers(cfg, eof, Tail(ts), d, [], []);
            ts != [] && m.status == Ok ==> MembersInText(PutAll([], m.val))
    ensures var a := ReadArray(cfg, eof, Tail(ts), d);
            ts != [] && a.status == Ok ==> forall e | e in a.val :: InText(e)
    decreases |ts|, 1
  {
    hide ReadMembers, ReadElements, InText, PutAll;
    if ts != [] {
      var m := ReadMembers(cfg, eof, Tail(ts), d, [], []);
      if m.status == Ok {
        MembersStayInText(cfg, eof, Tail(ts), d, [], []);
        PutAllInText(m.val);
      }
      if ReadElements(cfg, eof, Tail(ts), d, []).status == Ok {
        ElementsStayInText(cfg, eof, Tail(ts), d, []);
      }
    }
  }

  lemma {:induction false} ElementsStayInText(cfg: Config, eof: nat, toks: seq<Token>, d: nat, acc: seq<Node>)
    requires AfterStart(toks) && (forall e | e in acc :: InText(e))
    requires ReadElements(cfg, eof, toks, d, acc).status == Ok
    ensures forall e | e in ReadElements(cfg, eof, toks, d, acc).val :: InText(e)
    decreases |toks|, 3
  {
    hide ReadValue, DropComments, Recover, ReadElements, InText, AfterStart, EndOf;
    ElementsRound(cfg, eof, toks, d, acc);
    var child := ReadValue(cfg, eof, toks, d + 1, NULL_NODE);
    ValueInText(cfg, eof, toks, d + 1, NULL_NODE);
    assert forall e | e in acc + [child.val] :: InText(e);
    var ts := DropComments(child.rest);
    if Head(ts, eof).kind == ArraySeparator {
      ValueEnd(cfg, eof, toks, d + 1, NULL_NODE);
      TailOfDropIsEnd(child.rest);
      EndOfTrans(Tail(ts), child.rest, toks);
      EndAfterStart(Tail(ts), toks);
      ElementsStayInText(cfg, eof, Tail(ts), d, acc + [child.val]);
    }
  }

  lemma {:induction false} MembersStayInText(cfg: Config, eof: nat, toks: seq<Token>, d: nat, acc: seq<Entry<Node>>,
                                             last: Bytes)
    requires AfterStart(toks) && MembersInText(acc)
    requires ReadMembers(cfg, eof, toks, d, acc, last).status == Ok
    ensures MembersInText(ReadMembers(cfg, eof, toks, d, acc, last).val)
    decreases |toks|, 1
  {
    hide ReadValue, DropComments, Recover, NameOf, AfterMember, PutAll, InText, AfterStart, EndOf, Member;
    var ts := DropComments(toks);
    var key := Head(ts, eof);
    if !(key.kind == ObjectEnd && last == []) {
      var name := NameOf(cfg, key).name;
      var rest := Tail(Tail(ts));
      var child := ReadValue(cfg, eof, rest, d + 1, Member(acc, name));
      TailOfDropIsEnd(toks);
      TailIsEnd(Tail(ts));
      EndOfTrans(rest, Tail(ts), toks);
      EndAfterStart(rest, toks);
      AfterIsOk(cfg, eof, |toks|, d, acc + [Entry(name, child.val)], name, child);
      ValueInText(cfg, eof, rest, d + 1, Member(acc, name));
      assert MembersInText(acc + [Entry(name, child.val)]);
      ValueEnd(cfg, eof, rest, d + 1, Member(acc, name));
      EndAfterStart(child.rest, rest);
      AfterStaysInText(cfg, eof, |toks|, d, acc + [Entry(name, child.val)], name, child);
    }
  }

  lemma AfterIsOk(cfg: Config, eof: nat, bound: nat, d: nat, acc: seq<Entry<Node>>, name: Bytes, child: Result<Node>)
    requires |child.rest| < bound && |child.errors| == if child.status == Failed then 1 else 0
    requires AfterMember(cfg, eof, bound, d, acc, name, child).status == Ok
    ensures child.status == Ok
  {
    hide ReadMembers, DropComments;
  }

  lemma {:induction false} AfterStaysInText(cfg: Config, eof: nat, bound: nat, d: nat, acc: seq<Entry<Node>>,
                                            name: Bytes,
                                            child: Result<Node>)
    requires |child.rest| < bound && |child.errors| == if child.status == Failed then 1 else 0
    requires AfterStart(child.rest) && MembersInText(acc)
    requires AfterMember(cfg, eof, bound, d, acc, name, child).status == Ok
    ensures MembersInText(AfterMember(cfg, eof, bound, d, acc, name, child).val)
    decreases bound, 0
  {
    hide ReadMembers, DropComments, Recover, InText, AfterStart, EndOf;
    var ts := DropComments(child.rest);
    TailOfDropIsEnd(child.rest);
    EndAfterStart(Tail(ts), child.rest);
    if Head(ts, eof).kind != ObjectEnd {
      MembersStayInText(cfg, eof, Tail(ts), d, acc, name);
    }
  }

  /** The token with which a document starts. */
  function FirstToken(cfg: Config, t: Bytes): Token {
    Head(SkipCommentTokens(cfg, TokensFrom(t, 0)), |t|)
  }

  lemma LaterTokens(cfg: Config, t: Bytes)
    ensures var ts := SkipCommentTokens(cfg, TokensFrom(t, 0));
            AfterStart(Tail(ts)) && (ts != [] ==> ts[0].start >= 0)
  {
    hide TokensFrom, SkipCommentTokens, EndOf;
    var toks := TokensFrom(t, 0);
    var ts := SkipCommentTokens(cfg, toks);
    SkipIsEnd(cfg, toks);
    if toks != [] {
      TailAfterStart(t);
      NotFirst(ts, toks);
      EndAfterStart(Tail(ts), Tail(toks));
    } else {
      NothingLater(ts, toks);
    }
  }

  lemma TailAfterStart(t: Bytes)
    requires TokensFrom(t, 0) != []
    ensures AfterStart(Tail(TokensFrom(t, 0)))
  {
    hide TokensFrom, ReadToken;
    var toks := TokensFrom(t, 0);
    TokensUnfold(t, 0);
    var first := ReadToken(t, 0);
    forall i | 0 <= i < |toks[1..]| ensures toks[1..][i].start >= 1 {
      TokensIncrease(t, first.end, i);
    }
  }

  lemma NotFirst(ts: seq<Token>, toks: seq<Token>)
    requires EndOf(ts, toks) && toks != []
    ensures EndOf(Tail(ts), Tail(toks))
  {
  }

  lemma NothingLater(ts: seq<Token>, toks: seq<Token>)
    requires EndOf(ts, toks) && toks == []
    ensures ts == [] && AfterStart(Tail(ts))
  {
  }

  /**
   * After a successful parse some node starts before the text exactly when nulls may be dropped
   * and the document starts, at offset zero, with a comma or a closing bracket or brace.
   */
  lemma StartsInTextIff(cfg: Config, t: Bytes, root: Node)
    requires Parse(cfg, t, root).status == Ok
    ensures var first := FirstToken(cfg, t);
            !InText(Parse(cfg, t, root).root) <==> cfg.allowDroppedNull && IsPlaceholder(first.kind) && first.start == 0
  {
    hide TokensFrom, ReadMembers, ReadArray, ScalarOf, SkipCommentTokens, PutAll;
    var ts := SkipCommentTokens(cfg, TokensFrom(t, 0));
    LaterTokens(cfg, t);
    ContainerInText(cfg, |t|, ts, 1);
    if IsPlaceholder(FirstToken(cfg, t).kind) {
      PlaceholderIsNoScalar(cfg, FirstToken(cfg, t));
    }
  }

  lemma PlaceholderIsNoScalar(cfg: Config, tok: Token)
    requires IsPlaceholder(tok.kind)
    ensures ScalarOf(cfg, tok) == NoScalar
  {
  }
}
