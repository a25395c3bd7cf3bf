/** The main theorem about offsets: after a successful parse every node is faithful to the text. */
module Faithfulness {
  import opened Bytes
  import opened Lexer
  import opened LexerTheorems
  import opened Values
  import opened ReaderSpec
  import opened ReaderTheorems
  import opened FeatureTheorems
  import opened Offsets

  // ---------------------------------------------------------------- the property

  /**
   * The node's part of the document has no space at either end, and reading it alone succeeds
   * and gives the same value.
   */
  ghost predicate Rereads(cfg: Config, t: Bytes, n: Node) {
    && 0 <= n.start < n.limit <= |t| && !IsSpace(t[n.start]) && !IsSpace(t[n.limit - 1])
    && var p := Parse(cfg, t[n.start..n.limit], NULL_NODE);
    && p.status == Ok && p.errors == [] && Strip(p.root) == Strip(n)
  }

  predicate Inside(child: Node, parent: Node) {
    parent.start < child.start && child.limit < parent.limit
  }

  predicate Apart(a: Node, b: Node) {
    a.limit <= b.start || b.limit <= a.start
  }

  /** The node and everything below it are faithful to the document. */
  ghost predicate Faithful(cfg: Config, t: Bytes, n: Node) {
    && Rereads(cfg, t, n)
    && match n
       case LeafNode(_, _, _) => true
       case ArrNode(es, _, _) =>
         && (forall e | e in es :: Faithful(cfg, t, e) && Inside(e, n))
         && (forall i, j | 0 <= i < j < |es| :: es[i].limit <= es[j].start)
       case ObjNode(ms, _, _) =>
         && (forall m | m in ms :: Faithful(cfg, t, m.val) && Inside(m.val, n))
         && (forall i, j | 0 <= i < j < |ms| :: Apart(ms[i].val, ms[j].val))
  }

  // ---------------------------------------------------------------- positions

  /** The first token of a list: where it starts, and what follows it. */
  lemma First(t: Bytes, i: nat)
    requires i <= |t| && TokensFrom(t, i) != []
    ensures var tok := TokensFrom(t, i)[0];
            && i <= tok.start < tok.end <= |t| && !IsSpace(t[tok.start])
            && TokensFrom(t, i)[1..] == TokensFrom(t, tok.end)
            && TokensFrom(t, tok.start) == TokensFrom(t, i)
  {
    hide TokenAt;
    assert SkipSpaces(t, SkipSpaces(t, i)) == SkipSpaces(t, i);
  }

  lemma {:induction false} DropFrom(t: Bytes, i: nat) returns (j: nat)
    requires i <= |t|
    ensures i <= j <= |t| && DropComments(TokensFrom(t, i)) == TokensFrom(t, j)
    decreases |TokensFrom(t, i)|
  {
    hide TokensFrom;
    j := i;
    if TokensFrom(t, i) != [] && TokensFrom(t, i)[0].kind == Comment {
      First(t, i);
      j := DropFrom(t, TokensFrom(t, i)[0].end);
    }
  }

  /** The last token that was consumed is complete and ends where the cursor is. */
  ghost predicate EndsAt(toks: seq<Token>, rest: seq<Token>, pos: nat) {
    && |rest| < |toks|
    && toks[|toks| - |rest| - 1].end == pos
    && SelfContained(toks[|toks| - |rest| - 1].kind)
  }

  lemma EndsAtLonger(toks: seq<Token>, longer: seq<Token>, rest: seq<Token>, pos: nat)
    requires EndsAt(toks, rest, pos) && EndOf(toks, longer)
    ensures EndsAt(longer, rest, pos)
  {
  }

  // ---------------------------------------------------------------- tokens do not end in spaces

  lemma {:induction false} DigitsAreTight(t: Bytes, i: nat)
    requires 1 <= i <= |t| && !IsSpace(t[i - 1])
    ensures !IsSpace(t[SkipDigits(t, i) - 1])
    decreases |t| - i
  {
    if i < |t| && IsDigit(t[i]) {
      DigitsAreTight(t, i + 1);
    }
  }

  lemma NumberIsTight(t: Bytes, i: nat)
    requires 1 <= i <= |t| && !IsSpace(t[i - 1])
    ensures !IsSpace(t[ScanNumber(t, i) - 1])
  {
    hide SkipDigits;
    DigitsAreTight(t, i);
    var j := SkipDigits(t, i);
    if j < |t| && t[j] == DOT {
      DigitsAreTight(t, j + 1);
    }
    var k := SkipFraction(t, j);
    assert !IsSpace(t[k - 1]);
    if k < |t| && (t[k] == LOWER_E || t[k] == UPPER_E) {
      DigitsAreTight(t, k + 1);
      if k + 1 < |t| && (t[k + 1] == PLUS || t[k + 1] == MINUS) {
        DigitsAreTight(t, k + 2);
      }
    }
  }

  lemma WordIsTight(t: Bytes, i: nat, word: Bytes)
    requires i <= |t| && word != [] && !IsSpace(word[|word| - 1]) && ScanWord(t, i, word).ok
    ensures !IsSpace(t[ScanWord(t, i, word).end - 1])
  {
    assert t[i..i + |word|][|word| - 1] == word[|word| - 1];
  }

  lemma TokenIsTight(t: Bytes, s: nat)
    requires s < |t| && !IsSpace(t[s]) && SelfContained(TokenAt(t, s).kind)
    ensures !IsSpace(t[TokenAt(t, s).end - 1])
  {
    hide ScanNumber, ScanComment, ScanWord;
    var c := t[s];
    if IsDigit(c) || c == MINUS {
      NumberIsTight(t, s + 1);
    } else if c == LOWER_T {
      WordIsTight(t, s + 1, TRUE_TAIL);
    } else if c == LOWER_F {
      WordIsTight(t, s + 1, FALSE_TAIL);
    } else if c == LOWER_N {
      WordIsTight(t, s + 1, NULL_TAIL);
    }
  }

  lemma {:induction false} TokensAreTight(t: Bytes, i: nat, k: nat)
    requires i <= |t| && k < |TokensFrom(t, i)| && SelfContained(TokensFrom(t, i)[k].kind)
    ensures 0 < TokensFrom(t, i)[k].end <= |t| && !IsSpace(t[TokensFrom(t, i)[k].end - 1])
    decreases k
  {
    hide TokenAt, SelfContained;
    TokensUnfold(t, i);
    var tok := ReadToken(t, i);
    if k == 0 {
      TokenIsTight(t, tok.start);
    } else {
      TokensAreTight(t, tok.end, k - 1);
    }
  }

  lemma RereadsHere(cfg: Config, t: Bytes, s: nat, d: nat, cur: Node)
    requires !cfg.allowDroppedNull && !cfg.strictRoot && s < |t| && d >= 1 && !IsSpace(t[s])
    requires var toks := TokensFrom(t, s);
             var r := ReadValue(cfg, |t|, toks, d, cur);
             && r.status == Ok && EndsAt(toks, r.rest, r.pos)
             && r.val.start == s && r.val.limit == r.pos && s < r.pos <= |t|
    ensures Rereads(cfg, t, ReadValue(cfg, |t|, TokensFrom(t, s), d, cur).val)
  {
    hide ReadValue, TokensFrom, Strip, SelfContained;
    var toks := TokensFrom(t, s);
    var r := ReadValue(cfg, |t|, toks, d, cur);
    ValueEnd(cfg, |t|, toks, d, cur);
    var n := |toks| - |r.rest|;
    var u := t[s..r.pos];
    TokensOfSlice(t, s, r.pos, 0, n);
    assert toks == toks[..n] + r.rest;
    var a2 := TokensFrom(u, 0);
    assert a2 == a2 + [];
    ValueReplay(cfg, |t|, |u|, toks[..n], r.rest, a2, [], d, 1, cur, NULL_NODE);
    TokensAreTight(t, s, n - 1);
  }

  // ---------------------------------------------------------------- lists under construction

  /** Elements read so far: faithful, after `lo`, in order, and before `hi`. */
  ghost predicate Laid(cfg: Config, t: Bytes, acc: seq<Node>, lo: int, hi: int) {
    && (forall e | e in acc :: Faithful(cfg, t, e) && lo <= e.start && e.limit <= hi)
    && (forall i, j | 0 <= i < j < |acc| :: acc[i].limit <= acc[j].start)
  }

  function Vals(acc: seq<Entry<Node>>): (r: seq<Node>)
    ensures |r| == |acc| && forall i | 0 <= i < |acc| :: r[i] == acc[i].val
  {
    seq(|acc|, i requires 0 <= i < |acc| => acc[i].val)
  }

  lemma LaidGrows(cfg: Config, t: Bytes, acc: seq<Node>, lo: int, hi: int, n: Node)
    requires Laid(cfg, t, acc, lo, hi) && lo <= hi <= n.start && Faithful(cfg, t, n)
    ensures Laid(cfg, t, acc + [n], lo, n.limit)
  {
    hide Faithful;
    assert n.start < n.limit by {
      assert Rereads(cfg, t, n) by {
        FaithfulRereads(cfg, t, n);
      }
    }
  }

  lemma FaithfulRereads(cfg: Config, t: Bytes, n: Node)
    requires Faithful(cfg, t, n)
    ensures Rereads(cfg, t, n)
  {
  }

  lemma LaidWider(cfg: Config, t: Bytes, acc: seq<Node>, lo: int, hi: int, hi': int)
    requires Laid(cfg, t, acc, lo, hi) && hi <= hi'
    ensures Laid(cfg, t, acc, lo, hi')
  {
    hide Faithful;
  }

  lemma LaidNothing(cfg: Config, t: Bytes, lo: int, hi: int)
    ensures Laid(cfg, t, [], lo, hi)
  {
  }

  lemma ArrFaithful(cfg: Config, t: Bytes, es: seq<Node>, start: int, limit: int)
    requires Rereads(cfg, t, ArrNode(es, start, limit)) && Laid(cfg, t, es, start + 1, limit - 1)
    ensures Faithful(cfg, t, ArrNode(es, start, limit))
  {
    hide Rereads;
    var n := ArrNode(es, start, limit);
    forall e | e in es ensures Faithful(cfg, t, e) && Inside(e, n) {
    }
  }

  ghost predicate AllApart(ms: seq<Entry<Node>>) {
    forall i, j | 0 <= i < j < |ms| :: Apart(ms[i].val, ms[j].val)
  }

  ghost predicate InOrder(acc: seq<Entry<Node>>) {
    forall i, j | 0 <= i < j < |acc| :: acc[i].val.limit <= acc[j].val.start
  }

  /** The entries of the map come from the list, and stay apart. */
  lemma {:induction false} MapApart(acc: seq<Entry<Node>>)
    requires InOrder(acc)
    ensures AllApart(PutAll([], acc))
    ensures forall m | m in PutAll([], acc) :: m in acc
    decreases |acc|
  {
    hide Put;
    if acc != [] {
      var front, last := acc[..|acc| - 1], acc[|acc| - 1];
      assert InOrder(front);
      MapApart(front);
      var ms := PutAll([], front);
      forall x | x in ms ensures x.val.limit <= last.val.start {
        assert x in front;
        var i :| 0 <= i < |front| && front[i] == x;
        assert acc[i].val.limit <= acc[|acc| - 1].val.start;
      }
      PutApart(ms, last.key, last.val);
      assert last == Entry(last.key, last.val);
    }
  }

  lemma PutApart(m: seq<Entry<Node>>, k: Bytes, n: Node)
    requires AllApart(m)
    requires forall x | x in m :: x.val.limit <= n.start
    ensures AllApart(Put(m, k, n))
    ensures forall x | x in Put(m, k, n) :: x in m || x == Entry(k, n)
  {
    hide Put, PutSource, LowerBound;
    var r := Put(m, k, n);
    forall i, j | 0 <= i < j < |r| ensures Apart(r[i].val, r[j].val) {
      PutAt(m, k, n, i);
      PutAt(m, k, n, j);
      PutOrder(m, k, i, j);
    }
    forall x | x in r ensures x in m || x == Entry(k, n) {
      var i :| 0 <= i < |r| && r[i] == x;
      PutAt(m, k, n, i);
    }
  }

  lemma PutOrder<V>(m: seq<Entry<V>>, k: Bytes, i: nat, j: nat)
    requires i < j
    ensures PutSource(m, k, i) < 0 || PutSource(m, k, j) < 0 || PutSource(m, k, i) < PutSource(m, k, j)
    ensures !(PutSource(m, k, i) < 0 && PutSource(m, k, j) < 0)
  {
    hide LowerBound;
  }

  lemma ObjFaithful(cfg: Config, t: Bytes, acc: seq<Entry<Node>>, start: int, limit: int)
    requires Rereads(cfg, t, ObjNode(PutAll([], acc), start, limit)) && Laid(cfg, t, Vals(acc), start + 1, limit - 1)
    ensures Faithful(cfg, t, ObjNode(PutAll([], acc), start, limit))
  {
    hide Rereads, PutAll;
    forall i, j | 0 <= i < j < |acc| ensures acc[i].val.limit <= acc[j].val.start {
      assert Vals(acc)[i].limit <= Vals(acc)[j].start;
    }
    MapApart(acc);
    var n := ObjNode(PutAll([], acc), start, limit);
    forall m | m in n.members ensures Faithful(cfg, t, m.val) && Inside(m.val, n) {
      var i :| 0 <= i < |acc| && acc[i] == m;
      assert Vals(acc)[i] in Vals(acc);
    }
  }

  // ---------------------------------------------------------------- reading

  /** What a successful read from offset `i` guarantees. */
  ghost predicate Placed<T>(t: Bytes, i: nat, r: Result<T>) {
    && i < r.pos <= |t| && r.rest == TokensFrom(t, r.pos)
    && i <= |t| && EndsAt(TokensFrom(t, i), r.rest, r.pos)
  }

  lemma {:induction false} ValueFaithful(cfg: Config, t: Bytes, i: nat, d: nat, cur: Node)
    requires !cfg.allowDroppedNull && !cfg.strictRoot && i <= |t| && d >= 1
    requires ReadValue(cfg, |t|, TokensFrom(t, i), d, cur).status == Ok
    ensures var r := ReadValue(cfg, |t|, TokensFrom(t, i), d, cur);
            && Placed(t, i, r) && Faithful(cfg, t, r.val)
            && i <= r.val.start && r.val.limit == r.pos
    decreases |TokensFrom(t, i)|, 2
  {
    hide TokensFrom, ReadValue, DropComments, EndOf, Faithful, EndsAt;
    var toks := TokensFrom(t, i);
    ValueConsumes(cfg, |t|, toks, d, cur);
    var j := i;
    if cfg.allowComments {
      j := DropFrom(t, i);
    }
    First(t, j);
    var ts := SkipCommentTokens(cfg, toks);
    SkipIsEnd(cfg, toks);
    SkipTwice(cfg, |t|, toks, d, cur);
    assert ts == TokensFrom(t, ts[0].start);
    ValueAtToken(cfg, t, ts[0].start, d, cur);
    EndsAtLonger(ts, toks, ReadValue(cfg, |t|, toks, d, cur).rest, ReadValue(cfg, |t|, toks, d, cur).pos);
  }

  lemma SkipTwice(cfg: Config, eof: nat, toks: seq<Token>, d: nat, cur: Node)
    ensures SkipCommentTokens(cfg, SkipCommentTokens(cfg, toks)) == SkipCommentTokens(cfg, toks)
    ensures d <= STACK_LIMIT ==>
              ReadValue(cfg, eof, SkipCommentTokens(cfg, toks), d, cur) == ReadValue(cfg, eof, toks, d, cur)
  {
    hide ReadMembers, ReadArray, PutAll, ScalarOf;
  }

  /** ValueFaithful from the first token of the value on. */
  lemma {:induction false} ValueAtToken(cfg: Config, t: Bytes, s: nat, d: nat, cur: Node)
    requires !cfg.allowDroppedNull && !cfg.strictRoot && s <= |t| && d >= 1
    requires SkipCommentTokens(cfg, TokensFrom(t, s)) == TokensFrom(t, s)
    requires TokensFrom(t, s) != [] && TokensFrom(t, s)[0].start == s
    requires ReadValue(cfg, |t|, TokensFrom(t, s), d, cur).status == Ok
    ensures var r := ReadValue(cfg, |t|, TokensFrom(t, s), d, cur);
            Placed(t, s, r) && Faithful(cfg, t, r.val) && r.val.start == s && r.val.limit == r.pos
    decreases |TokensFrom(t, s)|, 1
  {
    hide TokensFrom, ReadMembers, ReadArray, SkipCommentTokens, EndOf, Faithful, PutAll, ScalarOf, Laid, Rereads,
      SelfContained;
    var toks := TokensFrom(t, s);
    var r := ReadValue(cfg, |t|, toks, d, cur);
    First(t, s);
    var tok := toks[0];
    TailIsEnd(toks);
    if tok.kind == ObjectBegin {
      LaidNothing(cfg, t, s + 1, tok.end);
      assert Vals([]) == [];
      MembersFaithful(cfg, t, tok.end, d, [], [], s + 1);
      EndsAtLonger(toks[1..], toks, r.rest, r.pos);
      RereadsHere(cfg, t, s, d, cur);
      ObjFaithful(cfg, t, ReadMembers(cfg, |t|, toks[1..], d, [], []).val, s, r.pos);
    } else if tok.kind == ArrayBegin {
      ArrayFaithful(cfg, t, tok.end, d, s + 1);
      EndsAtLonger(toks[1..], toks, r.rest, r.pos);
      RereadsHere(cfg, t, s, d, cur);
      ArrFaithful(cfg, t, r.val.elems, s, r.pos);
    } else {
      ScalarKinds(cfg, tok);
      RereadsHere(cfg, t, s, d, cur);
      LeafFaithful(cfg, t, r.val);
    }
  }

  lemma ScalarKinds(cfg: Config, tok: Token)
    requires ScalarOf(cfg, tok).Denotes?
    ensures SelfContained(tok.kind)
  {
  }

  lemma LeafFaithful(cfg: Config, t: Bytes, n: Node)
    requires n.LeafNode? && Rereads(cfg, t, n)
    ensures Faithful(cfg, t, n)
  {
  }

  lemma {:induction false} ArrayFaithful(cfg: Config, t: Bytes, i: nat, d: nat, lo: int)
    requires !cfg.allowDroppedNull && !cfg.strictRoot && lo <= i <= |t| && d >= 1
    requires ReadArray(cfg, |t|, TokensFrom(t, i), d).status == Ok
    ensures var r := ReadArray(cfg, |t|, TokensFrom(t, i), d);
            Placed(t, i, r) && Laid(cfg, t, r.val, lo, r.pos - 1)
    decreases |TokensFrom(t, i)|, 4
  {
    hide TokensFrom, ReadElements, Faithful;
    var toks := TokensFrom(t, i);
    if Head(toks, |t|).kind == ArrayEnd {
      First(t, i);
      LaidNothing(cfg, t, lo, toks[0].end - 1);
    } else {
      LaidNothing(cfg, t, lo, i);
      ElementsFaithful(cfg, t, i, d, [], lo);
    }
  }

  /** One successful turn of the element loop. */
  lemma ElementsStep(cfg: Config, e: nat, toks: seq<Token>, d: nat, acc: seq<Node>)
    requires ReadElements(cfg, e, toks, d, acc).status == Ok
    ensures var child := ReadValue(cfg, e, toks, d + 1, NULL_NODE);
            var ts, r := DropComments(child.rest), ReadElements(cfg, e, toks, d, acc);
            && child.status == Ok && ts != []
            && if ts[0].kind == ArrayEnd then r == Result(Ok, ts[0].end, ts[1..], acc + [child.val], [])
               else ts[0].kind == ArraySeparator && r == ReadElements(cfg, e, ts[1..], d, acc + [child.val])
  {
    hide ReadValue, DropComments;
  }

  lemma {:induction false} ElementsFaithful(cfg: Config, t: Bytes, i: nat, d: nat, acc: seq<Node>, lo: int)
    requires !cfg.allowDroppedNull && !cfg.strictRoot && lo <= i <= |t| && d >= 1
    requires Laid(cfg, t, acc, lo, i)
    requires ReadElements(cfg, |t|, TokensFrom(t, i), d, acc).status == Ok
    ensures var r := ReadElements(cfg, |t|, TokensFrom(t, i), d, acc);
            Placed(t, i, r) && Laid(cfg, t, r.val, lo, r.pos - 1)
    decreases |TokensFrom(t, i)|, 3
  {
    hide TokensFrom, ReadValue, DropComments, EndOf, Faithful, Laid, ReadElements, Placed;
    var toks := TokensFrom(t, i);
    var r := ReadElements(cfg, |t|, toks, d, acc);
    ElementsStep(cfg, |t|, toks, d, acc);
    var child := ReadValue(cfg, |t|, toks, d + 1, NULL_NODE);
    ValueFaithful(cfg, t, i, d + 1, NULL_NODE);
    PlacedFacts(t, i, child);
    LaidGrows(cfg, t, acc, lo, i, child.val);
    var acc' := acc + [child.val];
    ValueEnd(cfg, |t|, toks, d + 1, NULL_NODE);
    var j := DropFrom(t, child.pos);
    var ts := TokensFrom(t, j);
    First(t, j);
    DropIsEnd(child.rest);
    EndOfTrans(ts, child.rest, toks);
    if ts[0].kind == ArraySeparator {
      LaidWider(cfg, t, acc', lo, child.pos, ts[0].end);
      ElementsFaithful(cfg, t, ts[0].end, d, acc', lo);
      TailIsEnd(ts);
      EndOfTrans(ts[1..], ts, toks);
      PlacedLater(t, i, ts[0].end, r);
    } else {
      LaidWider(cfg, t, acc', lo, child.pos, ts[0].end - 1);
      PlacedAt(t, i, ts, r);
    }
  }

  lemma PlacedFacts<T>(t: Bytes, i: nat, r: Result<T>)
    requires Placed(t, i, r)
    ensures i < r.pos <= |t| && r.rest == TokensFrom(t, r.pos)
  {
  }

  /** A read from further on is a read from here. */
  lemma PlacedLater<T>(t: Bytes, i: nat, v: nat, r: Result<T>)
    requires i <= v <= |t| && Placed(t, v, r) && EndOf(TokensFrom(t, v), TokensFrom(t, i))
    ensures Placed(t, i, r)
  {
    hide TokensFrom, EndOf, EndsAt;
    EndsAtLonger(TokensFrom(t, v), TokensFrom(t, i), r.rest, r.pos);
  }

  /** A read that ends with the token at the head of `ts`. */
  lemma PlacedAt<T>(t: Bytes, i: nat, ts: seq<Token>, r: Result<T>)
    requires i <= |t| && EndOf(ts, TokensFrom(t, i)) && ts != [] && SelfContained(ts[0].kind)
    requires i < r.pos <= |t| && r.pos == ts[0].end && r.rest == ts[1..] == TokensFrom(t, r.pos)
    ensures Placed(t, i, r)
  {
    hide TokensFrom, EndOf, EndsAt;
    EndsHere(ts, r.pos);
    EndsAtLonger(ts, TokensFrom(t, i), r.rest, r.pos);
  }

  lemma {:induction false} MembersFaithful(cfg: Config, t: Bytes, i: nat, d: nat, acc: seq<Entry<Node>>,
                                           last: Bytes, lo: int)
    requires !cfg.allowDroppedNull && !cfg.strictRoot && lo <= i <= |t| && d >= 1
    requires Laid(cfg, t, Vals(acc), lo, i)
    requires ReadMembers(cfg, |t|, TokensFrom(t, i), d, acc, last).status == Ok
    ensures var r := ReadMembers(cfg, |t|, TokensFrom(t, i), d, acc, last);
            Placed(t, i, r) && Laid(cfg, t, Vals(r.val), lo, r.pos - 1)
    decreases |TokensFrom(t, i)|, 1
  {
    hide TokensFrom, DropComments, EndOf, Faithful, Laid, NameOf, Placed, ReadMembers, ReadValue, AfterMember;
    var toks := TokensFrom(t, i);
    var r := ReadMembers(cfg, |t|, toks, d, acc, last);
    MembersTake(cfg, |t|, toks, d, acc, last);
    MembersOpen(cfg, |t|, toks, d, acc, last);
    var j := DropFrom(t, i);
    var ts := TokensFrom(t, j);
    First(t, j);
    DropIsEnd(toks);
    if ts[0].kind == ObjectEnd && last == [] {
      PlacedAt(t, i, ts, r);
      LaidWider(cfg, t, Vals(acc), lo, i, r.pos - 1);
    } else {
      var v := AfterColon(t, j);
      EndOfTrans(TokensFrom(t, v), ts, toks);
      LaidWider(cfg, t, Vals(acc), lo, i, v);
      MemberFaithful(cfg, t, v, |toks|, d, acc, NameOf(cfg, ts[0]).name, lo);
      PlacedLater(t, i, v, r);
    }
  }

  /** One step of the member loop, where it does not fail. */
  lemma MembersOpen(cfg: Config, eof: nat, toks: seq<Token>, d: nat, acc: seq<Entry<Node>>, last: Bytes)
    requires ReadMembers(cfg, eof, toks, d, acc, last).status == Ok
    ensures var ts := DropComments(toks);
            var r := ReadMembers(cfg, eof, toks, d, acc, last);
            if Head(ts, eof).kind == ObjectEnd && last == [] then r == Result(Ok, Head(ts, eof).end, Tail(ts), acc, [])
            else
              && NameOf(cfg, Head(ts, eof)).Name?
              && var name := NameOf(cfg, Head(ts, eof)).name;
              && var child := ReadValue(cfg, eof, Tail(Tail(ts)), d + 1, Member(acc, name));
              && |child.rest| < |toks|
              && r == AfterMember(cfg, eof, |toks|, d, acc + [Entry(name, child.val)], name, child)
  {
    hide ReadValue, AfterMember, NameOf, DropComments, Recover, PutAll;
  }

  /** Where the value of a member starts: after two tokens. */
  lemma AfterColon(t: Bytes, j: nat) returns (v: nat)
    requires j <= |t| && |TokensFrom(t, j)| >= 2
    ensures j < v <= |t| && TokensFrom(t, v) == TokensFrom(t, j)[2..]
    ensures EndOf(TokensFrom(t, v), TokensFrom(t, j)) && |TokensFrom(t, v)| < |TokensFrom(t, j)|
  {
    hide TokensFrom;
    var ts := TokensFrom(t, j);
    First(t, j);
    First(t, ts[0].end);
    v := ts[1].end;
    assert ts[1..][1..] == ts[2..];
  }

  lemma EndsHere(ts: seq<Token>, pos: nat)
    requires ts != [] && ts[0].end == pos && SelfContained(ts[0].kind)
    ensures EndsAt(ts, ts[1..], pos)
  {
  }

  /** MembersFaithful from the value of a member on. */
  lemma {:induction false} MemberFaithful(cfg: Config, t: Bytes, v: nat, n: nat, d: nat, acc: seq<Entry<Node>>,
                                          name: Bytes, lo: int)
    requires !cfg.allowDroppedNull && !cfg.strictRoot && lo <= v <= |t| && d >= 1 && |TokensFrom(t, v)| < n
    requires Laid(cfg, t, Vals(acc), lo, v)
    requires var child := ReadValue(cfg, |t|, TokensFrom(t, v), d + 1, Member(acc, name));
             AfterMember(cfg, |t|, n, d, acc + [Entry(name, child.val)], name, child).status == Ok
    ensures var child := ReadValue(cfg, |t|, TokensFrom(t, v), d + 1, Member(acc, name));
            var r := AfterMember(cfg, |t|, n, d, acc + [Entry(name, child.val)], name, child);
            Placed(t, v, r) && Laid(cfg, t, Vals(r.val), lo, r.pos - 1)
    decreases |TokensFrom(t, v)|, 6
  {
    hide TokensFrom, ReadValue, EndOf, Faithful, Laid, AfterMember, PutAll, EndsAt;
    var toks := TokensFrom(t, v);
    var cur := Member(acc, name);
    var child := ReadValue(cfg, |t|, toks, d + 1, cur);
    var acc' := acc + [Entry(name, child.val)];
    AfterConsumes(cfg, |t|, n, d, acc', name, child);
    ValueFaithful(cfg, t, v, d + 1, cur);
    LaidGrows(cfg, t, Vals(acc), lo, v, child.val);
    assert Vals(acc') == Vals(acc) + [child.val];
    ValueEnd(cfg, |t|, toks, d + 1, cur);
    ValueConsumes(cfg, |t|, toks, d + 1, cur);
    AfterFaithful(cfg, t, v, n, d, acc', name, child, lo);
  }

  lemma {:induction false} AfterFaithful(cfg: Config, t: Bytes, v: nat, n: nat, d: nat, acc: seq<Entry<Node>>,
                                         name: Bytes,
                                         child: Result<Node>, lo: int)
    requires !cfg.allowDroppedNull && !cfg.strictRoot && lo <= v <= |t| && d >= 1
    requires child.status == Ok && child.errors == [] && v < child.pos <= |t| && child.rest == TokensFrom(t, child.pos)
    requires EndOf(child.rest, TokensFrom(t, v)) && |child.rest| < |TokensFrom(t, v)| < n
    requires Laid(cfg, t, Vals(acc), lo, child.pos)
    requires AfterMember(cfg, |t|, n, d, acc, name, child).status == Ok
    ensures var r := AfterMember(cfg, |t|, n, d, acc, name, child);
            Placed(t, v, r) && Laid(cfg, t, Vals(r.val), lo, r.pos - 1)
    decreases |TokensFrom(t, v)|, 5
  {
    hide TokensFrom, DropComments, EndOf, Faithful, Laid, Recover, ReadMembers, Placed;
    var toks := TokensFrom(t, v);
    var r := AfterMember(cfg, |t|, n, d, acc, name, child);
    var j := DropFrom(t, child.pos);
    var ts := TokensFrom(t, j);
    DropIsEnd(child.rest);
    EndOfTrans(ts, child.rest, toks);
    if ts == [] {
      NoMembersLeft(cfg, |t|, d, acc, name);
    } else {
      First(t, j);
      if ts[0].kind == ObjectEnd {
        PlacedAt(t, v, ts, r);
        LaidWider(cfg, t, Vals(acc), lo, child.pos, r.pos - 1);
      } else {
        LaidWider(cfg, t, Vals(acc), lo, child.pos, ts[0].end);
        MembersFaithful(cfg, t, ts[0].end, d, acc, name, lo);
        TailIsEnd(ts);
        EndOfTrans(ts[1..], ts, toks);
        PlacedLater(t, v, ts[0].end, r);
      }
    }
  }

  lemma NoMembersLeft(cfg: Config, eof: nat, d: nat, acc: seq<Entry<Node>>, name: Bytes)
    ensures ReadMembers(cfg, eof, [], d, acc, name).status == Failed
  {
  }

  /**
   * After any successful parse every node is faithful to the document. Dropped null
   * placeholders are off, as they are by default; with a strict root the part of a node is read
   * again with any root allowed.
   */
  lemma ParsedIsFaithful(cfg: Config, t: Bytes, root: Node)
    requires !cfg.allowDroppedNull && Parse(cfg, t, root).status == Ok
    ensures Faithful(Lenient(cfg), t, Parse(cfg, t, root).root)
    ensures !cfg.strictRoot ==> Lenient(cfg) == cfg
  {
    hide ReadValue, TokensFrom, Faithful, Placed;
    StrictRootOnlyJudges(cfg, t, root);
    ValueFaithful(Lenient(cfg), t, 0, 1, root);
  }

  /** With the strict root itself, exactly the parts of arrays and objects can be read again. */
  lemma RereadsStrictlyIff(cfg: Config, t: Bytes, n: Node)
    requires Rereads(Lenient(cfg), t, n)
    ensures Rereads(cfg, t, n) <==> !cfg.strictRoot || !n.LeafNode?
  {
    hide Parse;
    var part := t[n.start..n.limit];
    StrictRootOnlyJudges(cfg, part, NULL_NODE);
    SameKind(Parse(cfg, part, NULL_NODE).root, n);
  }

  lemma SameKind(a: Node, b: Node)
    ensures Strip(a) == Strip(b) ==> a.LeafNode? == b.LeafNode?
  {
  }

  /** With dropped null placeholders on, a node can start before the document. */
  lemma DroppedNullIsUnfaithful(cfg: Config)
    requires cfg.allowDroppedNull && !cfg.strictRoot
    ensures var p := Parse(cfg, [COMMA], NULL_NODE); p.status == Ok && p.root == LeafNode(Null, -1, 0)
  {
    var t: Bytes := [COMMA];
    assert ReadToken(t, 0) == Token(ArraySeparator, 0, 1, [COMMA]);
    assert TokensFrom(t, 1) == [];
    assert TokensFrom(t, 0) == [ReadToken(t, 0)];
  }
}
