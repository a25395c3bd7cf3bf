/**
 * The offsets that the default reader records: every node covers a non-empty part of the
 * document, children lie strictly inside their parent and apart from each other, and reading
 * that part alone gives the same value.
 */
module Offsets {
  import opened Bytes
  import opened Seqs
  import opened Lexer
  import opened Values
  import opened ReaderSpec
  import opened ReaderTheorems

  // ---------------------------------------------------------------- the reader depends on lexemes only

  lemma LexemesConcat(a: seq<Token>, b: seq<Token>)
    ensures Lexemes(a + b) == Lexemes(a) + Lexemes(b)
  {
  }

  /** Equal lexemes: equal first token and equal rest, in kind and text. */
  lemma SameHead(a: seq<Token>, a2: seq<Token>)
    requires Lexemes(a) == Lexemes(a2)
    ensures |a| == |a2|
    ensures a != [] ==> LexemeOf(a[0]) == LexemeOf(a2[0]) && Lexemes(a[1..]) == Lexemes(a2[1..])
  {
    assert |Lexemes(a)| == |Lexemes(a2)|;
    if a != [] {
      assert Lexemes(a)[0] == Lexemes(a2)[0];
      assert Lexemes(a[1..]) == Lexemes(a)[1..] && Lexemes(a2[1..]) == Lexemes(a2)[1..];
    }
  }

  lemma {:induction false} SameDrop(a: seq<Token>, b: seq<Token>, a2: seq<Token>, b2: seq<Token>)
    requires Lexemes(a) == Lexemes(a2)
    ensures Lexemes(DropComments(a)) == Lexemes(DropComments(a2))
    ensures |DropComments(a)| <= |a| && |DropComments(a)| == |DropComments(a2)|
    ensures DropComments(a) != [] ==>
              DropComments(a + b) == DropComments(a) + b && DropComments(a2 + b2) == DropComments(a2) + b2
    ensures DropComments(a) == [] ==> DropComments(a + b) == DropComments(b)
  {
    hide Lexemes;
    SameDropLexemes(a, a2);
    DropAppend(a, b);
    DropAppend(a2, b2);
  }

  lemma {:induction false} SameDropLexemes(a: seq<Token>, a2: seq<Token>)
    requires Lexemes(a) == Lexemes(a2)
    ensures Lexemes(DropComments(a)) == Lexemes(DropComments(a2))
    ensures |DropComments(a)| <= |a| && |DropComments(a)| == |DropComments(a2)|
  {
    SameHead(a, a2);
    if a != [] && a[0].kind == Comment {
      SameDropLexemes(a[1..], a2[1..]);
    }
  }

  /** Splitting off what a nested read has left: it still contains the end `b` of the list. */
  lemma Split(x: seq<Token>, b: seq<Token>, rest: seq<Token>) returns (z: seq<Token>, y: seq<Token>)
    requires EndOf(rest, x + b) && |b| <= |rest|
    ensures x == z + y && rest == y + b && |y| <= |x|
  {
    var n := |x| + |b| - |rest|;
    z, y := x[..n], x[n..];
    assert (x + b)[n..] == y + b;
  }

  lemma SameSplit<T>(a: seq<T>, b: seq<T>, c: seq<T>, d: seq<T>)
    requires a + b == c + d && |a| == |c|
    ensures a == c && b == d
  {
    assert a == (a + b)[..|a|] && b == (a + b)[|a|..];
    assert c == (c + d)[..|c|] && d == (c + d)[|c|..];
  }

  lemma SplitLike(x: seq<Token>, x2: seq<Token>, z: seq<Token>, y: seq<Token>) returns (z2: seq<Token>, y2: seq<Token>)
    requires x == z + y && Lexemes(x) == Lexemes(x2)
    ensures x2 == z2 + y2 && Lexemes(z) == Lexemes(z2) && Lexemes(y) == Lexemes(y2)
  {
    assert |Lexemes(x)| == |Lexemes(x2)|;
    z2, y2 := x2[..|z|], x2[|z|..];
    LexemesConcat(z, y);
    LexemesConcat(z2, y2);
    assert x2 == z2 + y2;
    SameSplit(Lexemes(z), Lexemes(y), Lexemes(z2), Lexemes(y2));
  }

  /** `b` is what a successful read left; the tokens `a` before it can be replaced by others with the same lexemes. */
  lemma {:induction false} ValueReplay(cfg: Config, e: nat, e2: nat, a: seq<Token>, b: seq<Token>, a2: seq<Token>,
                                       b2: seq<Token>,
                                       d: nat, d2: nat, cur: Node, cur2: Node)
    requires !cfg.allowDroppedNull && d2 <= d && Lexemes(a) == Lexemes(a2)
    requires ReadValue(cfg, e, a + b, d, cur).status == Ok && ReadValue(cfg, e, a + b, d, cur).rest == b
    ensures var r, r2 := ReadValue(cfg, e, a + b, d, cur), ReadValue(cfg, e2, a2 + b2, d2, cur2);
            r2.status == Ok && r2.rest == b2 && Strip(r2.val) == Strip(r.val)
    decreases |a|, 2
  {
    hide ReadMembers, ReadArray, ScalarOf, DropComments, Strip, PutAll;
    SameDrop(a, b, a2, b2);
    SameHead(a, a2);
    var x, x2 := if cfg.allowComments then DropComments(a) else a, if cfg.allowComments then DropComments(a2) else a2;
    if x == [] {
      NothingRead(cfg, e, a, b, d, cur);
    } else {
      assert SkipCommentTokens(cfg, a + b) == x + b && SkipCommentTokens(cfg, a2 + b2) == x2 + b2;
      SameHead(x, x2);
      HeadTail(x, b, e);
      HeadTail(x2, b2, e2);
      if x[0].kind == ObjectBegin {
        MembersReplay(cfg, e, e2, x[1..], b, x2[1..], b2, d, d2, [], [], []);
        var m, m2 := ReadMembers(cfg, e, x[1..] + b, d, [], []), ReadMembers(cfg, e2, x2[1..] + b2, d2, [], []);
        SameObject(m.val, x[0].start, m.pos, m2.val, x2[0].start, m2.pos);
      } else if x[0].kind == ArrayBegin {
        ArrayReplay(cfg, e, e2, x[1..], b, x2[1..], b2, d, d2);
        var m, m2 := ReadArray(cfg, e, x[1..] + b, d), ReadArray(cfg, e2, x2[1..] + b2, d2);
        StripArr(m.val, x[0].start, m.pos);
        StripArr(m2.val, x2[0].start, m2.pos);
      } else {
        SameScalar(cfg, x[0], x2[0]);
        assert x[1..] + b == b;
        assert x2[1..] + b2 == b2;
        SameLeaf(ScalarOf(cfg, x[0]).scalar, x[0].start, x[0].end, x2[0].start, x2[0].end);
      }
    }
  }

  lemma SameScalar(cfg: Config, a: Token, b: Token)
    requires LexemeOf(a) == LexemeOf(b)
    ensures ScalarOf(cfg, a) == ScalarOf(cfg, b) && NameOf(cfg, a) == NameOf(cfg, b)
  {
    hide DecodeScalar, DecodeLiteral;
  }

  lemma SameLeaf(s: Scalar, a: int, b: int, c: int, d: int)
    ensures Strip(LeafNode(s, a, b)) == Strip(LeafNode(s, c, d))
  {
  }

  lemma SameObject(ms: seq<Entry<Node>>, a: int, b: int, ms2: seq<Entry<Node>>, c: int, d: int)
    requires StripMembers(ms) == StripMembers(ms2)
    ensures Strip(ObjNode(PutAll([], ms), a, b)) == Strip(ObjNode(PutAll([], ms2), c, d))
  {
    hide PutAll;
    StripObj(PutAll([], ms), a, b);
    StripObj(PutAll([], ms2), c, d);
    StripPutAll(ms);
    StripPutAll(ms2);
  }

  lemma ValueConsumes(cfg: Config, e: nat, toks: seq<Token>, d: nat, cur: Node)
    requires !cfg.allowDroppedNull && ReadValue(cfg, e, toks, d, cur).status == Ok
    ensures |ReadValue(cfg, e, toks, d, cur).rest| < |SkipCommentTokens(cfg, toks)| && d <= STACK_LIMIT
  {
    hide ReadMembers, ReadArray, PutAll, SkipCommentTokens;
  }

  /** A successful read takes at least one token that is not a comment. */
  lemma NothingRead(cfg: Config, e: nat, a: seq<Token>, b: seq<Token>, d: nat, cur: Node)
    requires !cfg.allowDroppedNull
    requires ReadValue(cfg, e, a + b, d, cur).status == Ok && ReadValue(cfg, e, a + b, d, cur).rest == b
    ensures (if cfg.allowComments then DropComments(a) else a) != []
  {
    hide ReadValue, DropComments;
    ValueConsumes(cfg, e, a + b, d, cur);
    SameDrop(a, b, a, b);
    assert a == [] ==> a + b == b;
  }

  lemma {:induction false} ArrayReplay(cfg: Config, e: nat, e2: nat, a: seq<Token>, b: seq<Token>, a2: seq<Token>,
                                       b2: seq<Token>,
                                       d: nat, d2: nat)
    requires !cfg.allowDroppedNull && d2 <= d && Lexemes(a) == Lexemes(a2)
    requires ReadArray(cfg, e, a + b, d).status == Ok && ReadArray(cfg, e, a + b, d).rest == b
    ensures var r, r2 := ReadArray(cfg, e, a + b, d), ReadArray(cfg, e2, a2 + b2, d2);
            r2.status == Ok && r2.rest == b2 && StripAll(r2.val) == StripAll(r.val)
    decreases |a|, 4
  {
    hide ReadElements, Strip;
    SameHead(a, a2);
    if a == [] {
      assert a + b == b;
      ElementsConsume(cfg, e, b, d, []);
    } else {
      HeadTail(a, b, e);
      HeadTail(a2, b2, e2);
      if a[0].kind == ArrayEnd {
        assert a[1..] + b == b;
        assert a2[1..] + b2 == b2;
      } else {
        ElementsReplay(cfg, e, e2, a, b, a2, b2, d, d2, [], []);
      }
    }
  }

  /** A successful loop consumes at least the closing bracket. */
  lemma ElementsConsume(cfg: Config, e: nat, toks: seq<Token>, d: nat, acc: seq<Node>)
    requires ReadElements(cfg, e, toks, d, acc).status == Ok
    ensures |ReadElements(cfg, e, toks, d, acc).rest| < |toks|
  {
    hide ReadValue, DropComments;
  }

  lemma MembersConsume(cfg: Config, e: nat, toks: seq<Token>, d: nat, acc: seq<Entry<Node>>, last: Bytes)
    requires ReadMembers(cfg, e, toks, d, acc, last).status == Ok
    ensures |ReadMembers(cfg, e, toks, d, acc, last).rest| < |toks|
  {
    hide ReadValue, DropComments, AfterMember, NameOf;
  }

  lemma {:induction false} ElementsReplay(cfg: Config, e: nat, e2: nat, a: seq<Token>, b: seq<Token>,
                                          a2: seq<Token>, b2: seq<Token>,
                                          d: nat, d2: nat, acc: seq<Node>, acc2: seq<Node>)
    requires !cfg.allowDroppedNull && d2 <= d && Lexemes(a) == Lexemes(a2) && StripAll(acc) == StripAll(acc2)
    requires ReadElements(cfg, e, a + b, d, acc).status == Ok && ReadElements(cfg, e, a + b, d, acc).rest == b
    ensures var r, r2 := ReadElements(cfg, e, a + b, d, acc), ReadElements(cfg, e2, a2 + b2, d2, acc2);
            r2.status == Ok && r2.rest == b2 && StripAll(r2.val) == StripAll(r.val)
    decreases |a|, 3
  {
    hide ReadValue, DropComments, Strip, EndOf, Recover, ReadElements, Lexemes, StripAll;
    var child := ReadValue(cfg, e, a + b, d + 1, NULL_NODE);
    ElementsRound(cfg, e, a + b, d, acc);
    ElementsRound(cfg, e2, a2 + b2, d2, acc2);
    ElementsTakeOne(cfg, e, a + b, d, acc);
    ValueEnd(cfg, e, a + b, d + 1, NULL_NODE);
    DropShortens(child.rest);
    var z, y := Split(a, b, child.rest);
    var z2, y2 := SplitLike(a, a2, z, y);
    Reassociate(z, y, b);
    Reassociate(z2, y2, b2);
    ValueReplay(cfg, e, e2, z, y + b, z2, y2 + b2, d + 1, d2 + 1, NULL_NODE, NULL_NODE);
    var child2 := ReadValue(cfg, e2, a2 + b2, d2 + 1, NULL_NODE);
    StripOneMore(acc, child.val);
    StripOneMore(acc2, child2.val);
    SameDrop(y, b, y2, b2);
    DropShortens(b);
    if DropComments(y) != [] {
      var f, f2 := DropComments(y), DropComments(y2);
      SameHead(f, f2);
      HeadTail(f, b, e);
      HeadTail(f2, b2, e2);
      KindOfHead(f, f2);
      if f[0].kind == ArrayEnd {
        NothingBetween(f, b, f2, b2);
      } else {
        ElementsReplay(cfg, e, e2, f[1..], b, f2[1..], b2, d, d2, acc + [child.val], acc2 + [child2.val]);
      }
    }
  }

  lemma DropShortens(toks: seq<Token>)
    ensures |DropComments(toks)| <= |toks|
  {
  }

  lemma StripOneMore(acc: seq<Node>, n: Node)
    ensures StripAll(acc + [n]) == StripAll(acc) + [Strip(n)]
  {
    hide Strip;
  }

  lemma KindOfHead(f: seq<Token>, f2: seq<Token>)
    requires f != [] && f2 != [] && LexemeOf(f[0]) == LexemeOf(f2[0])
    ensures f[0].kind == f2[0].kind
  {
  }

  /** One token before what is left on both sides. */
  lemma NothingBetween(f: seq<Token>, b: seq<Token>, f2: seq<Token>, b2: seq<Token>)
    requires f != [] && |f| == |f2| && f[1..] + b == b
    ensures f2[1..] + b2 == b2
  {
    assert |f[1..] + b| == |f| - 1 + |b|;
    assert f2[1..] == [];
  }

  /** A successful loop takes at least one token after the first element. */
  lemma ElementsTakeOne(cfg: Config, e: nat, toks: seq<Token>, d: nat, acc: seq<Node>)
    requires ReadElements(cfg, e, toks, d, acc).status == Ok
    ensures var child := ReadValue(cfg, e, toks, d + 1, NULL_NODE);
            child.status == Ok && |ReadElements(cfg, e, toks, d, acc).rest| < |DropComments(child.rest)|
  {
    hide ReadValue, DropComments, Recover, ReadElements;
    ElementsRound(cfg, e, toks, d, acc);
    var ts := DropComments(ReadValue(cfg, e, toks, d + 1, NULL_NODE).rest);
    if Head(ts, e).kind == ArraySeparator {
      ElementsConsume(cfg, e, Tail(ts), d, acc + [ReadValue(cfg, e, toks, d + 1, NULL_NODE).val]);
    }
  }

  /** A successful member loop takes the closing brace, or a name, a colon and more. */
  lemma MembersTake(cfg: Config, e: nat, toks: seq<Token>, d: nat, acc: seq<Entry<Node>>, last: Bytes)
    requires ReadMembers(cfg, e, toks, d, acc, last).status == Ok
    ensures var ts, rest := DropComments(toks), ReadMembers(cfg, e, toks, d, acc, last).rest;
            && ts != []
            && if ts[0].kind == ObjectEnd && last == [] then rest == ts[1..]
               else NameOf(cfg, ts[0]).Name? && |rest| + 2 <= |ts| && Head(ts[1..], e).kind == MemberSeparator
  {
    hide ReadValue, DropComments, AfterMember, NameOf, PutAll;
    var ts := DropComments(toks);
    if !(Head(ts, e).kind == ObjectEnd && last == []) {
      EosHasNoName(cfg, e);
      var name := NameOf(cfg, Head(ts, e)).name;
      var child := ReadValue(cfg, e, Tail(Tail(ts)), d + 1, Member(acc, name));
      AfterConsumes(cfg, e, |toks|, d, acc + [Entry(name, child.val)], name, child);
    }
  }

  lemma EosHasNoName(cfg: Config, e: nat)
    ensures NameOf(cfg, Head([], e)) == NoName
  {
  }

  lemma {:induction false} MembersReplay(cfg: Config, e: nat, e2: nat, a: seq<Token>, b: seq<Token>,
                                         a2: seq<Token>, b2: seq<Token>,
                                         d: nat, d2: nat, acc: seq<Entry<Node>>, acc2: seq<Entry<Node>>, last: Bytes)
    requires !cfg.allowDroppedNull && d2 <= d && Lexemes(a) == Lexemes(a2) && StripMembers(acc) == StripMembers(acc2)
    requires ReadMembers(cfg, e, a + b, d, acc, last).status == Ok && ReadMembers(cfg, e, a + b, d, acc, last).rest == b
    ensures var r, r2 := ReadMembers(cfg, e, a + b, d, acc, last), ReadMembers(cfg, e2, a2 + b2, d2, acc2, last);
            r2.status == Ok && r2.rest == b2 && StripMembers(r2.val) == StripMembers(r.val)
    decreases |a|, 1
  {
    hide ReadValue, DropComments, Strip, NameOf, AfterMember, Recover, PutAll;
    SameDrop(a, b, a2, b2);
    var x, x2 := DropComments(a), DropComments(a2);
    MembersTake(cfg, e, a + b, d, acc, last);
    if x != [] {
      SameHead(x, x2);
      HeadTail(x, b, e);
      HeadTail(x2, b2, e2);
      SameScalar(cfg, x[0], x2[0]);
      if x[0].kind == ObjectEnd && last == [] {
        assert x[1..] + b == b;
        assert x2[1..] + b2 == b2;
      } else {
        assert NameOf(cfg, x[0]).Name?;
        var name := NameOf(cfg, x[0]).name;
        if |x| > 1 {
          SameHead(x[1..], x2[1..]);
          HeadTail(x[1..], b, e);
          HeadTail(x2[1..], b2, e2);
          assert x[1..][1..] == x[2..] && x2[1..][1..] == x2[2..];
          MemberReplay(cfg, e, e2, x[2..], b, x2[2..], b2, |a + b|, |a2 + b2|, d, d2, acc, acc2, name);
        }
      }
    }
  }

  /** MembersReplay from the value of a member on. */
  lemma {:induction false} MemberReplay(cfg: Config, e: nat, e2: nat, a: seq<Token>, b: seq<Token>,
                                        a2: seq<Token>, b2: seq<Token>,
                                        n: nat, n2: nat, d: nat, d2: nat, acc: seq<Entry<Node>>,
                                        acc2: seq<Entry<Node>>, name: Bytes)
    requires !cfg.allowDroppedNull && d2 <= d && Lexemes(a) == Lexemes(a2) && StripMembers(acc) == StripMembers(acc2)
    requires |a + b| < n && |a2 + b2| < n2
    requires var child := ReadValue(cfg, e, a + b, d + 1, Member(acc, name));
             var r := AfterMember(cfg, e, n, d, acc + [Entry(name, child.val)], name, child);
             r.status == Ok && r.rest == b
    ensures var child := ReadValue(cfg, e, a + b, d + 1, Member(acc, name));
            var child2 := ReadValue(cfg, e2, a2 + b2, d2 + 1, Member(acc2, name));
            var r, r2 := AfterMember(cfg, e, n, d, acc + [Entry(name, child.val)], name, child),
                         AfterMember(cfg, e2, n2, d2, acc2 + [Entry(name, child2.val)], name, child2);
            r2.status == Ok && r2.rest == b2 && StripMembers(r2.val) == StripMembers(r.val)
    decreases |a|, 6
  {
    hide ReadValue, DropComments, Strip, EndOf, AfterMember, PutAll;
    var cur, cur2 := Member(acc, name), Member(acc2, name);
    var child := ReadValue(cfg, e, a + b, d + 1, cur);
    ValueEnd(cfg, e, a + b, d + 1, cur);
    AfterConsumes(cfg, e, n, d, acc + [Entry(name, child.val)], name, child);
    var z, y := Split(a, b, child.rest);
    var z2, y2 := SplitLike(a, a2, z, y);
    assert a + b == z + (y + b) && a2 + b2 == z2 + (y2 + b2);
    ValueReplay(cfg, e, e2, z, y + b, z2, y2 + b2, d + 1, d2 + 1, cur, cur2);
    var child2 := ReadValue(cfg, e2, a2 + b2, d2 + 1, cur2);
    assert StripMembers(acc + [Entry(name, child.val)]) == StripMembers(acc) + [Entry(name, Strip(child.val))];
    assert StripMembers(acc2 + [Entry(name, child2.val)]) == StripMembers(acc2) + [Entry(name, Strip(child2.val))];
    assert |y| <= |a|;
    AfterReplay(cfg, e, e2, y, b, y2, b2, n, n2, d, d2, acc + [Entry(name, child.val)],
                acc2 + [Entry(name, child2.val)], name, child, child2);
  }

  lemma AfterConsumes(cfg: Config, e: nat, n: nat, d: nat, acc: seq<Entry<Node>>, name: Bytes, child: Result<Node>)
    requires |child.rest| < n && |child.errors| == if child.status == Failed then 1 else 0
    requires AfterMember(cfg, e, n, d, acc, name, child).status == Ok
    ensures child.status == Ok
    ensures |AfterMember(cfg, e, n, d, acc, name, child).rest| < |child.rest| || child.rest == []
    ensures |AfterMember(cfg, e, n, d, acc, name, child).rest| <= |child.rest|
  {
    hide DropComments, ReadMembers;
  }

  lemma {:induction false} AfterReplay(cfg: Config, e: nat, e2: nat, y: seq<Token>, b: seq<Token>, y2: seq<Token>,
                                       b2: seq<Token>,
                                       n: nat, n2: nat, d: nat, d2: nat, acc: seq<Entry<Node>>,
                                        acc2: seq<Entry<Node>>, name: Bytes,
                                       child: Result<Node>, child2: Result<Node>)
    requires !cfg.allowDroppedNull && d2 <= d && Lexemes(y) == Lexemes(y2) && StripMembers(acc) == StripMembers(acc2)
    requires child.status == Ok && child2.status == Ok && child.errors == [] && child2.errors == []
    requires child.rest == y + b && child2.rest == y2 + b2 && |child.rest| < n && |child2.rest| < n2
    requires var r := AfterMember(cfg, e, n, d, acc, name, child); r.status == Ok && r.rest == b
    ensures var r, r2 := AfterMember(cfg, e, n, d, acc, name, child), AfterMember(cfg, e2, n2, d2, acc2, name, child2);
            r2.status == Ok && r2.rest == b2 && StripMembers(r2.val) == StripMembers(r.val)
    decreases |y|, 5
  {
    hide ReadMembers, DropComments, Strip, Recover;
    SameDrop(y, b, y2, b2);
    SameHead(y, y2);
    if DropComments(y) == [] {
      NotAfterNothing(cfg, e, n, d, acc, name, child, y, b);
    } else {
      var f, f2 := DropComments(y), DropComments(y2);
      HeadTail(y, b, e);
      HeadTail(y2, b2, e2);
      SameHead(f, f2);
      HeadTail(f, b, e);
      HeadTail(f2, b2, e2);
      if f[0].kind == ObjectEnd {
        assert f[1..] + b == b;
        assert f2[1..] + b2 == b2;
      } else {
        MembersReplay(cfg, e, e2, f[1..], b, f2[1..], b2, d, d2, acc, acc2, name);
      }
    }
  }

  lemma NotAfterNothing(cfg: Config, e: nat, n: nat, d: nat, acc: seq<Entry<Node>>, name: Bytes, child: Result<Node>,
                        y: seq<Token>, b: seq<Token>)
    requires child.status == Ok && child.errors == [] && child.rest == y + b && |child.rest| < n
    requires AfterMember(cfg, e, n, d, acc, name, child).status == Ok
    requires AfterMember(cfg, e, n, d, acc, name, child).rest == b
    ensures DropComments(y) != []
  {
    hide ReadMembers, DropComments, AfterMember, Lexemes;
    if DropComments(y) == [] {
      DropAppend(y, b);
      AfterTakesOne(cfg, e, n, d, acc, name, child);
      DropIsEnd(b);
    }
  }

  /** What follows a member takes at least one token after the comments. */
  lemma AfterTakesOne(cfg: Config, e: nat, n: nat, d: nat, acc: seq<Entry<Node>>, name: Bytes, child: Result<Node>)
    requires child.status == Ok && child.errors == [] && |child.rest| < n
    requires AfterMember(cfg, e, n, d, acc, name, child).status == Ok
    ensures |AfterMember(cfg, e, n, d, acc, name, child).rest| < |DropComments(child.rest)|
  {
    hide ReadMembers, DropComments, Recover;
    var ts := DropComments(child.rest);
    if Head(ts, e).kind != ObjectEnd {
      MembersConsume(cfg, e, Tail(ts), d, acc, name);
    }
  }
}
