/**
 * Reading a document that was cut off. The keys found in the root object of the cut text are
 * those of the first members of the whole text, in order; nothing else is ever added.
 */
module Truncation {
  import opened Bytes
  import opened Lexer
  import opened LexerTheorems
  import opened Values
  import opened ReaderSpec
  import opened ReaderTheorems

  // ---------------------------------------------------------------- two token lists with a common start

  /**
   * `r` was read from c + tail and `s` from c + other: both succeeded with the same value, and
   * what is left still ends in `tail` and in `other`.
   */
  ghost predicate Same<T>(r: Result<T>, s: Result<T>, tail: seq<Token>, other: seq<Token>) {
    && r.status == Ok && s.status == Ok && r.val == s.val && r.pos == s.pos
    && |tail| <= |r.rest|
    && var c := r.rest[..|r.rest| - |tail|];
    && r.rest == c + tail && s.rest == c + other
  }

  /** Either both reads go on alike, or the cut one has failed or has only fragile tokens left. */
  ghost predicate Tracks<T>(r: Result<T>, s: Result<T>, tail: seq<Token>, other: seq<Token>) {
    r.status == Ok ==> Same(r, s, tail, other) || AllFragile(r.rest)
  }

  lemma MakeSame<T>(r: Result<T>, s: Result<T>, c: seq<Token>, tail: seq<Token>, other: seq<Token>)
    requires r.status == Ok && s.status == Ok && r.val == s.val && r.pos == s.pos
    requires r.rest == c + tail && s.rest == c + other
    ensures Same(r, s, tail, other)
  {
    assert r.rest[..|r.rest| - |tail|] == c;
  }

  lemma FragileEnd(rest: seq<Token>, toks: seq<Token>)
    requires AllFragile(toks) && EndOf(rest, toks)
    ensures AllFragile(rest)
  {
    forall j | 0 <= j < |rest| ensures Fragile(rest[j].kind) {
      assert rest[j] == toks[|toks| - |rest| + j];
    }
  }

  lemma {:induction false} DropOver(c: seq<Token>, x: seq<Token>)
    ensures DropComments(c) != [] ==> DropComments(c + x) == DropComments(c) + x
    ensures DropComments(c) == [] ==> AllFragile(c)
  {
    if c != [] && c[0].kind == Comment {
      DropOver(c[1..], x);
      assert (c + x)[1..] == c[1..] + x;
    }
  }

  lemma FragileConcat(c: seq<Token>, tail: seq<Token>)
    requires AllFragile(c) && AllFragile(tail)
    ensures AllFragile(c + tail)
  {
  }

  /** A list of fragile tokens offers no member: the loop fails and adds nothing. */
  lemma FragileMembers(cfg: Config, eof: nat, toks: seq<Token>, depth: nat, acc: seq<Entry<Node>>, last: Bytes)
    requires AllFragile(toks)
    ensures ReadMembers(cfg, eof, toks, depth, acc, last).status == Failed
    ensures ReadMembers(cfg, eof, toks, depth, acc, last).val == acc
  {
    hide Recover, ReadValue, AfterMember, DropComments, EndOf;
    DropIsEnd(toks);
    FragileEnd(DropComments(toks), toks);
    TailOfDropIsEnd(toks);
    FragileEnd(Tail(DropComments(toks)), toks);
    FragileHead(Tail(DropComments(toks)), eof);
  }

  lemma FragileAfter(cfg: Config, eof: nat, bound: nat, depth: nat, acc: seq<Entry<Node>>, name: Bytes,
                     child: Result<Node>)
    requires |child.rest| < bound && AllFragile(child.rest) && child.status == Ok && child.errors == []
    ensures AfterMember(cfg, eof, bound, depth, acc, name, child).status == Failed
    ensures AfterMember(cfg, eof, bound, depth, acc, name, child).val == acc
  {
    hide Recover, ReadMembers, DropComments, EndOf;
    var ts := DropComments(child.rest);
    DropIsEnd(child.rest);
    FragileEnd(ts, child.rest);
    TailOfDropIsEnd(child.rest);
    FragileEnd(Tail(ts), child.rest);
    FragileMembers(cfg, eof, Tail(ts), depth, acc, name);
  }

  // ---------------------------------------------------------------- values and elements

  lemma {:induction false} ValueTracks(cfg: Config, e: nat, e': nat, c: seq<Token>, tail: seq<Token>, other: seq<Token>,
                                       depth: nat, cur: Node)
    requires AllFragile(tail)
    ensures Tracks(ReadValue(cfg, e, c + tail, depth, cur), ReadValue(cfg, e', c + other, depth, cur), tail, other)
    decreases |c|, 2
  {
    hide ReadValue, Same, EndOf;
    ValueEnd(cfg, e, c + tail, depth, cur);
    if AllFragile(c) {
      FragileConcat(c, tail);
      FragileEnd(ReadValue(cfg, e, c + tail, depth, cur).rest, c + tail);
    } else {
      DropOver(c, tail);
      DropOver(c, other);
      DropIsEnd(c);
      assert |DropComments(c)| <= |c|;
      var d := SkipCommentTokens(cfg, c);
      assert d != [] && SkipCommentTokens(cfg, c + tail) == d + tail && SkipCommentTokens(cfg, c + other) == d + other;
      ValueAtToken(cfg, e, e', c, d, tail, other, depth, cur);
    }
  }

  /** ValueTracks from the first token of the value on. */
  lemma {:induction false} ValueAtToken(cfg: Config, e: nat, e': nat, c: seq<Token>, d: seq<Token>, tail: seq<Token>,
                                        other: seq<Token>, depth: nat, cur: Node)
    requires AllFragile(tail) && d != [] && |d| <= |c|
    requires SkipCommentTokens(cfg, c + tail) == d + tail && SkipCommentTokens(cfg, c + other) == d + other
    ensures Tracks(ReadValue(cfg, e, c + tail, depth, cur), ReadValue(cfg, e', c + other, depth, cur), tail, other)
    decreases |c|, 1
  {
    hide ReadMembers, ReadArray, Same, ScalarOf, SkipCommentTokens, PutAll, AllFragile;
    var r, s := ReadValue(cfg, e, c + tail, depth, cur), ReadValue(cfg, e', c + other, depth, cur);
    HeadTail(d, tail, e);
    HeadTail(d, other, e');
    var tok := d[0];
    if depth > STACK_LIMIT {
    } else if tok.kind == ObjectBegin {
      MembersTrack(cfg, e, e', d[1..], tail, other, depth, [], []);
      var m, m' := ReadMembers(cfg, e, d[1..] + tail, depth, [], []),
                   ReadMembers(cfg, e', d[1..] + other, depth, [], []);
      if m.status == Ok && Same(m, m', tail, other) {
        SameRest(m, m', tail, other);
        MakeSame(r, s, m.rest[..|m.rest| - |tail|], tail, other);
      }
    } else if tok.kind == ArrayBegin {
      ArrayTracks(cfg, e, e', d[1..], tail, other, depth);
      var a, a' := ReadArray(cfg, e, d[1..] + tail, depth), ReadArray(cfg, e', d[1..] + other, depth);
      if a.status == Ok && Same(a, a', tail, other) {
        SameRest(a, a', tail, other);
        MakeSame(r, s, a.rest[..|a.rest| - |tail|], tail, other);
      }
    } else if r.status == Ok {
      MakeSame(r, s, if ScalarOf(cfg, tok).Denotes? then d[1..] else d, tail, other);
    }
  }

  lemma SameRest<T>(r: Result<T>, s: Result<T>, tail: seq<Token>, other: seq<Token>)
    requires Same(r, s, tail, other)
    ensures r.status == Ok && s.status == Ok && r.val == s.val && r.pos == s.pos && |tail| <= |r.rest|
    ensures r.rest == r.rest[..|r.rest| - |tail|] + tail && s.rest == r.rest[..|r.rest| - |tail|] + other
  {
  }

  lemma {:induction false} ArrayTracks(cfg: Config, e: nat, e': nat, c: seq<Token>, tail: seq<Token>,
                                       other: seq<Token>, depth: nat)
    requires AllFragile(tail)
    ensures Tracks(ReadArray(cfg, e, c + tail, depth), ReadArray(cfg, e', c + other, depth), tail, other)
    decreases |c|, 4
  {
    hide ReadElements, Same, EndOf;
    if c == [] {
      ArrayEndOf(cfg, e, c + tail, depth);
      FragileConcat(c, tail);
      FragileEnd(ReadArray(cfg, e, c + tail, depth).rest, c + tail);
    } else {
      HeadTail(c, tail, e);
      HeadTail(c, other, e');
      if c[0].kind == ArrayEnd {
        MakeSame(ReadArray(cfg, e, c + tail, depth), ReadArray(cfg, e', c + other, depth), c[1..], tail, other);
      } else {
        ElementsTrack(cfg, e, e', c, tail, other, depth, []);
      }
    }
  }

  lemma {:induction false} ElementsTrack(cfg: Config, e: nat, e': nat, c: seq<Token>, tail: seq<Token>,
                                         other: seq<Token>,
                                         depth: nat, acc: seq<Node>)
    requires AllFragile(tail)
    ensures Tracks(ReadElements(cfg, e, c + tail, depth, acc), ReadElements(cfg, e', c + other, depth, acc),
                   tail, other)
    decreases |c|, 3
  {
    hide ReadValue, Same, EndOf, DropComments, AllFragile, Recover;
    var r, s := ReadElements(cfg, e, c + tail, depth, acc), ReadElements(cfg, e', c + other, depth, acc);
    ElementsEnd(cfg, e, c + tail, depth, acc);
    ValueTracks(cfg, e, e', c, tail, other, depth + 1, NULL_NODE);
    var child, child' := ReadValue(cfg, e, c + tail, depth + 1, NULL_NODE),
                         ReadValue(cfg, e', c + other, depth + 1, NULL_NODE);
    if child.status == Ok {
      if AllFragile(child.rest) {
        FragileElements(child.rest, e);
      } else {
        SameRest(child, child', tail, other);
        var d := child.rest[..|child.rest| - |tail|];
        DropOver(d, tail);
        DropOver(d, other);
        DropIsEnd(d);
        if DropComments(d) == [] {
          FragileConcat(d, tail);
        } else {
          var f := DropComments(d);
          HeadTail(f, tail, e);
          HeadTail(f, other, e');
          if f[0].kind == ArrayEnd {
            MakeSame(r, s, f[1..], tail, other);
          } else if f[0].kind == ArraySeparator {
            ElementsTrack(cfg, e, e', f[1..], tail, other, depth, acc + [child.val]);
          }
        }
      }
    }
  }

  lemma FragileElements(toks: seq<Token>, eof: nat)
    requires AllFragile(toks)
    ensures var next := Head(DropComments(toks), eof); next.kind != ArrayEnd && next.kind != ArraySeparator
  {
    hide DropComments;
    DropIsEnd(toks);
    FragileEnd(DropComments(toks), toks);
  }

  // ---------------------------------------------------------------- members

  /** Members already read stay at the front of the list. */
  lemma {:induction false} MembersExtend(cfg: Config, eof: nat, toks: seq<Token>, depth: nat, acc: seq<Entry<Node>>,
                                         last: Bytes)
    ensures acc <= ReadMembers(cfg, eof, toks, depth, acc, last).val
    decreases |toks|, 1
  {
    hide ReadValue, DropComments, NameOf, AfterMember, PutAll, Recover;
    var ts := DropComments(toks);
    var key, colon := Head(ts, eof), Head(Tail(ts), eof);
    if !(key.kind == ObjectEnd && last == []) && NameOf(cfg, key).Name? && colon.kind == MemberSeparator {
      var name := NameOf(cfg, key).name;
      var child := ReadValue(cfg, eof, Tail(Tail(ts)), depth + 1, Member(acc, name));
      AfterExtends(cfg, eof, |toks|, depth, acc + [Entry(name, child.val)], name, child);
      assert acc <= acc + [Entry(name, child.val)];
    }
  }

  lemma {:induction false} AfterExtends(cfg: Config, eof: nat, bound: nat, depth: nat, acc: seq<Entry<Node>>,
                                        name: Bytes,
                                        child: Result<Node>)
    requires |child.rest| < bound
    requires |child.errors| == if child.status == Failed then 1 else 0
    ensures acc <= AfterMember(cfg, eof, bound, depth, acc, name, child).val
    decreases bound, 0
  {
    hide DropComments, ReadMembers, Recover;
    var ts := DropComments(child.rest);
    if |Tail(ts)| < bound {
      MembersExtend(cfg, eof, Tail(ts), depth, acc, name);
    }
  }

  lemma KeysPrefix<V>(a: seq<Entry<V>>, b: seq<Entry<V>>)
    requires a <= b
    ensures KeysOf(a) <= KeysOf(b)
  {
  }

  /** Same keys so far, so the keys of `a` are a prefix of the keys of anything that extends `b`. */
  lemma KeysExtend<V>(a: seq<Entry<V>>, b: seq<Entry<V>>, c: seq<Entry<V>>)
    requires KeysOf(a) == KeysOf(b) && b <= c
    ensures KeysOf(a) <= KeysOf(c)
  {
    KeysPrefix(b, c);
  }

  lemma {:induction false} MembersTrack(cfg: Config, e: nat, e': nat, c: seq<Token>, tail: seq<Token>,
                                        other: seq<Token>,
                                        depth: nat, acc: seq<Entry<Node>>, last: Bytes)
    requires AllFragile(tail)
    ensures var r, s := ReadMembers(cfg, e, c + tail, depth, acc, last),
                        ReadMembers(cfg, e', c + other, depth, acc, last);
            Tracks(r, s, tail, other) && KeysOf(r.val) <= KeysOf(s.val)
    decreases |c|, 1
  {
    hide ReadMembers, Same, EndOf, DropComments, AllFragile;
    MembersExtend(cfg, e', c + other, depth, acc, last);
    KeysPrefix(acc, ReadMembers(cfg, e', c + other, depth, acc, last).val);
    if AllFragile(c) {
      FragileConcat(c, tail);
      FragileMembers(cfg, e, c + tail, depth, acc, last);
    } else {
      DropOver(c, tail);
      DropOver(c, other);
      DropIsEnd(c);
      MembersAtKey(cfg, e, e', c, DropComments(c), tail, other, depth, acc, last);
    }
  }

  /** MembersTrack from a name on. */
  lemma {:induction false} MembersAtKey(cfg: Config, e: nat, e': nat, c: seq<Token>, d: seq<Token>, tail: seq<Token>,
                                        other: seq<Token>, depth: nat, acc: seq<Entry<Node>>, last: Bytes)
    requires AllFragile(tail) && d != [] && |d| <= |c|
    requires DropComments(c + tail) == d + tail && DropComments(c + other) == d + other
    requires acc <= ReadMembers(cfg, e', c + other, depth, acc, last).val
    ensures var r, s := ReadMembers(cfg, e, c + tail, depth, acc, last),
                        ReadMembers(cfg, e', c + other, depth, acc, last);
            Tracks(r, s, tail, other) && KeysOf(r.val) <= KeysOf(s.val)
    decreases |c|, 0
  {
    hide ReadValue, AfterMember, NameOf, Same, EndOf, DropComments, PutAll, Recover, AllFragile;
    var r, s := ReadMembers(cfg, e, c + tail, depth, acc, last), ReadMembers(cfg, e', c + other, depth, acc, last);
    KeysPrefix(acc, s.val);
    HeadTail(d, tail, e);
    HeadTail(d, other, e');
    var key := d[0];
    if key.kind == ObjectEnd && last == [] {
      MakeSame(r, s, d[1..], tail, other);
    } else if NameOf(cfg, key).Name? {
      var name := NameOf(cfg, key).name;
      if |d| == 1 {
        assert d[1..] + tail == tail;
        FragileHead(tail, e);
      } else {
        HeadTail(d[1..], tail, e);
        HeadTail(d[1..], other, e');
        assert d[1..][1..] == d[2..];
        if d[1].kind == MemberSeparator {
          MembersAtValue(cfg, e, e', d[2..], |c + tail|, |c + other|, tail, other, depth, acc, name);
        }
      }
    }
  }

  lemma FragileHead(toks: seq<Token>, eof: nat)
    requires AllFragile(toks)
    ensures Head(toks, eof).kind != MemberSeparator
  {
  }

  /** MembersTrack from the value of a member on. */
  lemma {:induction false} MembersAtValue(cfg: Config, e: nat, e': nat, d: seq<Token>, b: nat, b': nat,
                                          tail: seq<Token>,
                                          other: seq<Token>, depth: nat, acc: seq<Entry<Node>>, name: Bytes)
    requires AllFragile(tail) && |d + tail| < b && |d + other| < b'
    ensures var x, y := ReadValue(cfg, e, d + tail, depth + 1, Member(acc, name)),
                        ReadValue(cfg, e', d + other, depth + 1, Member(acc, name));
            var r, s := AfterMember(cfg, e, b, depth, acc + [Entry(name, x.val)], name, x),
                        AfterMember(cfg, e', b', depth, acc + [Entry(name, y.val)], name, y);
            Tracks(r, s, tail, other) && KeysOf(r.val) <= KeysOf(s.val)
    decreases |d|, 6
  {
    hide ReadValue, AfterMember, Same, EndOf, PutAll, AllFragile;
    ValueTracks(cfg, e, e', d, tail, other, depth + 1, Member(acc, name));
    var x, y := ReadValue(cfg, e, d + tail, depth + 1, Member(acc, name)),
                ReadValue(cfg, e', d + other, depth + 1, Member(acc, name));
    var ax, ay := acc + [Entry(name, x.val)], acc + [Entry(name, y.val)];
    assert KeysOf(ax) == KeysOf(ay);
    AfterExtends(cfg, e', b', depth, ay, name, y);
    KeysExtend(ax, ay, AfterMember(cfg, e', b', depth, ay, name, y).val);
    if x.status != Ok {
      FailedAfter(cfg, e, b, depth, ax, name, x);
    } else if AllFragile(x.rest) {
      FragileAfter(cfg, e, b, depth, ax, name, x);
    } else {
      ValueEnd(cfg, e, d + tail, depth + 1, Member(acc, name));
      SameRest(x, y, tail, other);
      var f := x.rest[..|x.rest| - |tail|];
      assert |f| <= |d|;
      AfterTracks(cfg, e, e', f, b, b', tail, other, depth, ax, name, x, y);
    }
  }

  lemma FailedAfter(cfg: Config, eof: nat, bound: nat, depth: nat, acc: seq<Entry<Node>>, name: Bytes,
                    child: Result<Node>)
    requires |child.rest| < bound && child.status != Ok
    requires |child.errors| == if child.status == Failed then 1 else 0
    ensures AfterMember(cfg, eof, bound, depth, acc, name, child).val == acc
    ensures AfterMember(cfg, eof, bound, depth, acc, name, child).status != Ok
  {
  }

  /** MembersTrack after a member that both have read alike. */
  lemma {:induction false} AfterTracks(cfg: Config, e: nat, e': nat, f: seq<Token>, b: nat, b': nat, tail: seq<Token>,
                                       other: seq<Token>, depth: nat, acc: seq<Entry<Node>>, name: Bytes,
                                       x: Result<Node>, y: Result<Node>)
    requires AllFragile(tail)
    requires x.status == Ok && y.status == Ok && x.errors == [] && y.errors == []
    requires x.rest == f + tail && y.rest == f + other && |x.rest| < b && |y.rest| < b'
    requires acc <= AfterMember(cfg, e', b', depth, acc, name, y).val
    ensures var r, s := AfterMember(cfg, e, b, depth, acc, name, x), AfterMember(cfg, e', b', depth, acc, name, y);
            Tracks(r, s, tail, other) && KeysOf(r.val) <= KeysOf(s.val)
    decreases |f|, 5
  {
    hide ReadMembers, Same, EndOf, DropComments, Recover, AllFragile;
    var r, s := AfterMember(cfg, e, b, depth, acc, name, x), AfterMember(cfg, e', b', depth, acc, name, y);
    KeysPrefix(acc, s.val);
    DropOver(f, tail);
    DropOver(f, other);
    DropIsEnd(f);
    if DropComments(f) == [] {
      FragileConcat(f, tail);
      FragileAfter(cfg, e, b, depth, acc, name, x);
    } else {
      var g := DropComments(f);
      assert f != [];
      HeadTail(f, tail, e);
      HeadTail(f, other, e');
      HeadTail(g, tail, e);
      HeadTail(g, other, e');
      if f[0].kind == ObjectEnd || f[0].kind == ArraySeparator || f[0].kind == Comment {
        if g[0].kind == ObjectEnd {
          MakeSame(r, s, g[1..], tail, other);
        } else {
          MembersTrack(cfg, e, e', g[1..], tail, other, depth, acc, name);
        }
      }
    }
  }

  // ---------------------------------------------------------------- documents

  /** The names assigned to the root object, in the order of the document. */
  function ListedIn(cfg: Config, eof: nat, toks: seq<Token>): seq<Bytes> {
    var ts := SkipCommentTokens(cfg, toks);
    if Head(ts, eof).kind == ObjectBegin then KeysOf(ReadMembers(cfg, eof, Tail(ts), 1, [], []).val) else []
  }

  function Listed(cfg: Config, t: Bytes): seq<Bytes> {
    ListedIn(cfg, |t|, TokensFrom(t, 0))
  }

  /** getMemberNames of a parsed root: the listed names, each once, in ascending order. */
  lemma MemberNamesAreListed(cfg: Config, t: Bytes)
    requires Parse(cfg, t, NULL_NODE).root.ObjNode?
    ensures var names := KeysOf(Parse(cfg, t, NULL_NODE).root.members);
            && (forall x :: x in names <==> x in Listed(cfg, t))
            && forall i, j | 0 <= i < j < |names| :: KeyLess(names[i], names[j])
  {
    hide ReadMembers, TokensFrom, SkipCommentTokens, ScalarOf, ReadArray, PutAll, KeyLess;
    var ts := SkipCommentTokens(cfg, TokensFrom(t, 0));
    if Head(ts, |t|).kind == ObjectBegin {
      var ms := ReadMembers(cfg, |t|, Tail(ts), 1, [], []).val;
      PutAllKeys(ms);
      PutAllIsAscending(ms);
    }
  }

  /**
   * Cutting a document anywhere only shortens the list of names at its end. This holds for
   * every document, well-formed or not, with comments or without.
   */
  lemma CutIsPrefix(cfg: Config, t: Bytes, k: nat)
    requires k <= |t|
    ensures Listed(cfg, t[..k]) <= Listed(cfg, t)
  {
    hide ReadMembers, TokensFrom, SkipCommentTokens, AllFragile, Same;
    var u := t[..k];
    var n := TokensOfCut(t, k, 0);
    var all, cut := TokensFrom(t, 0), TokensFrom(u, 0);
    var c, tail, other := cut[..n], cut[n..], all[n..];
    assert cut == c + tail && all == c + other;
    RootTracks(cfg, |u|, |t|, c, tail, other);
  }

  lemma RootTracks(cfg: Config, e: nat, e': nat, c: seq<Token>, tail: seq<Token>, other: seq<Token>)
    requires AllFragile(tail)
    ensures ListedIn(cfg, e, c + tail) <= ListedIn(cfg, e', c + other)
  {
    hide ReadMembers, DropComments, Same, EndOf;
    if AllFragile(c) {
      FragileConcat(c, tail);
      SkipIsEnd(cfg, c + tail);
      FragileEnd(SkipCommentTokens(cfg, c + tail), c + tail);
    } else {
      DropOver(c, tail);
      DropOver(c, other);
      var d := SkipCommentTokens(cfg, c);
      HeadTail(d, tail, e);
      HeadTail(d, other, e');
      MembersTrack(cfg, e, e', d[1..], tail, other, 1, [], []);
    }
  }
}
