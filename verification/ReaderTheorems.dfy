/** What holds after every run of the reader, successful or not. */
module ReaderTheorems {
  import opened Bytes
  import opened Lexer
  import opened Values
  import opened ReaderSpec

  // ---------------------------------------------------------------- result and error list

  /**
   * parse returns true exactly when the error list is empty, and with strictRoot off the list
   * never holds more than one error: recovery adds none, and a failure ends every level above it.
   */
  lemma ErrorsAgree(cfg: Config, t: Bytes, root: Node)
    ensures var p := Parse(cfg, t, root);
            && (p.status == Ok ==> p.errors == [])
            && (p.status == Failed ==> p.errors != [])
            && (!cfg.strictRoot ==> |p.errors| <= 1)
            && |p.errors| <= 2
            && var first := ReadValue(cfg, |t|, TokensFrom(t, 0), 1, root);
            && (|p.errors| == 2 <==> cfg.strictRoot && p.root.LeafNode? && first.status == Failed)
            && (p.status == Aborted ==> p.errors == [])
  {
    hide ReadValue, TokensFrom;
  }

  /** With strictRoot on, two errors are possible: the document is one letter. */
  lemma TwoErrors(cfg: Config)
    requires cfg.strictRoot
    ensures |Parse(cfg, [LOWER_A], NULL_NODE).errors| == 2
  {
    var t: Bytes := [LOWER_A];
    assert ReadToken(t, 0) == Token(ErrorToken, 0, 1, [LOWER_A]);
    assert TokensFrom(t, 1) == [];
    assert TokensFrom(t, 0) == [ReadToken(t, 0)];
  }

  // ---------------------------------------------------------------- what is left is the end of the list

  ghost predicate EndOf<T>(rest: seq<T>, toks: seq<T>) {
    |rest| <= |toks| && rest == toks[|toks| - |rest|..]
  }

  lemma EndOfTrans<T>(a: seq<T>, b: seq<T>, c: seq<T>)
    requires EndOf(a, b) && EndOf(b, c)
    ensures EndOf(a, c)
  {
  }

  /** One round of the element loop. */
  lemma ElementsRound(cfg: Config, eof: nat, toks: seq<Token>, depth: nat, acc: seq<Node>)
    ensures var child := ReadValue(cfg, eof, toks, depth + 1, NULL_NODE);
            var acc' := acc + [child.val];
            var ts := DropComments(child.rest);
            var next := Head(ts, eof);
            ReadElements(cfg, eof, toks, depth, acc) ==
            if child.status == Aborted then Result(Aborted, 0, child.rest, acc', child.errors)
            else if child.status == Failed then Fail(eof, child.rest, ArrayEnd, acc', child.errors)
            else if next.kind == ArrayEnd then Result(Ok, next.end, Tail(ts), acc', [])
            else if next.kind == ArraySeparator then ReadElements(cfg, eof, Tail(ts), depth, acc')
            else Fail(eof, Tail(ts), ArrayEnd, acc', [Error(MissingArraySeparator, next)])
  {
    hide ReadValue, DropComments, Recover;
  }

  lemma {:induction false} DropAppend(c: seq<Token>, x: seq<Token>)
    ensures DropComments(c + x) == if DropComments(c) != [] then DropComments(c) + x else DropComments(x)
  {
    if c == [] {
      assert c + x == x;
    } else if c[0].kind == Comment {
      assert (c + x)[1..] == c[1..] + x;
      DropAppend(c[1..], x);
    }
  }

  lemma HeadTail(a: seq<Token>, b: seq<Token>, eof: nat)
    requires a != []
    ensures Head(a + b, eof) == a[0] && Tail(a + b) == a[1..] + b
  {
  }

  lemma TailIsEnd(toks: seq<Token>)
    ensures EndOf(Tail(toks), toks)
  {
  }

  lemma {:induction false} DropIsEnd(toks: seq<Token>)
    ensures EndOf(DropComments(toks), toks)
  {
    if toks != [] && toks[0].kind == Comment {
      DropIsEnd(toks[1..]);
      EndOfTrans(DropComments(toks[1..]), toks[1..], toks);
    }
  }

  lemma TailOfDropIsEnd(toks: seq<Token>)
    ensures EndOf(Tail(DropComments(toks)), toks)
  {
    hide EndOf, DropComments;
    DropIsEnd(toks);
    TailIsEnd(DropComments(toks));
    EndOfTrans(Tail(DropComments(toks)), DropComments(toks), toks);
  }

  lemma {:induction false} RecoverIsEnd(toks: seq<Token>, eof: nat, until: Kind)
    ensures EndOf(Recover(toks, eof, until).rest, toks)
  {
    if toks != [] && toks[0].kind != until && toks[0].kind != EndOfStream {
      RecoverIsEnd(toks[1..], eof, until);
      EndOfTrans(Recover(toks[1..], eof, until).rest, toks[1..], toks);
    }
  }

  lemma FailIsEnd<T>(eof: nat, rest: seq<Token>, until: Kind, val: T, errors: seq<Error>, toks: seq<Token>)
    requires EndOf(rest, toks)
    ensures EndOf(Fail(eof, rest, until, val, errors).rest, toks)
  {
    hide EndOf, Recover;
    RecoverIsEnd(rest, eof, until);
    EndOfTrans(Recover(rest, eof, until).rest, rest, toks);
  }

  lemma SkipIsEnd(cfg: Config, toks: seq<Token>)
    ensures EndOf(SkipCommentTokens(cfg, toks), toks)
    ensures EndOf(Tail(SkipCommentTokens(cfg, toks)), toks)
  {
    DropIsEnd(toks);
    TailOfDropIsEnd(toks);
    TailIsEnd(toks);
  }

  /** Reading never looks back: the tokens left are the end of the tokens given. */
  lemma {:induction false} ValueEnd(cfg: Config, eof: nat, toks: seq<Token>, depth: nat, cur: Node)
    ensures EndOf(ReadValue(cfg, eof, toks, depth, cur).rest, toks)
    decreases |toks|, 2
  {
    hide EndOf, ReadMembers, ReadArray, PutAll, ScalarOf, SkipCommentTokens;
    if depth <= STACK_LIMIT {
      var ts := SkipCommentTokens(cfg, toks);
      SkipIsEnd(cfg, toks);
      var tok := Head(ts, eof);
      if tok.kind == ObjectBegin {
        MembersEnd(cfg, eof, Tail(ts), depth, [], []);
        EndOfTrans(ReadMembers(cfg, eof, Tail(ts), depth, [], []).rest, Tail(ts), toks);
      } else if tok.kind == ArrayBegin {
        ArrayEndOf(cfg, eof, Tail(ts), depth);
        EndOfTrans(ReadArray(cfg, eof, Tail(ts), depth).rest, Tail(ts), toks);
      }
    } else {
      WholeIsEnd(toks);
    }
  }

  lemma WholeIsEnd(toks: seq<Token>)
    ensures EndOf(toks, toks)
  {
  }

  lemma {:induction false} ArrayEndOf(cfg: Config, eof: nat, toks: seq<Token>, depth: nat)
    ensures EndOf(ReadArray(cfg, eof, toks, depth).rest, toks)
    decreases |toks|, 4
  {
    hide EndOf, ReadElements;
    TailIsEnd(toks);
    ElementsEnd(cfg, eof, toks, depth, []);
  }

  lemma {:induction false} ElementsEnd(cfg: Config, eof: nat, toks: seq<Token>, depth: nat, acc: seq<Node>)
    ensures EndOf(ReadElements(cfg, eof, toks, depth, acc).rest, toks)
    decreases |toks|, 3
  {
    hide EndOf, ReadValue, DropComments, Fail;
    ValueEnd(cfg, eof, toks, depth + 1, NULL_NODE);
    var child := ReadValue(cfg, eof, toks, depth + 1, NULL_NODE);
    var acc' := acc + [child.val];
    FailIsEnd(eof, child.rest, ArrayEnd, acc', child.errors, toks);
    var ts := DropComments(child.rest);
    TailOfDropIsEnd(child.rest);
    EndOfTrans(Tail(ts), child.rest, toks);
    FailIsEnd(eof, Tail(ts), ArrayEnd, acc', [Error(MissingArraySeparator, Head(ts, eof))], toks);
    if child.status == Ok && Head(ts, eof).kind == ArraySeparator {
      ElementsEnd(cfg, eof, Tail(ts), depth, acc');
      EndOfTrans(ReadElements(cfg, eof, Tail(ts), depth, acc').rest, Tail(ts), toks);
    }
  }

  lemma {:induction false} MembersEnd(cfg: Config, eof: nat, toks: seq<Token>, depth: nat, acc: seq<Entry<Node>>,
                                      last: Bytes)
    ensures EndOf(ReadMembers(cfg, eof, toks, depth, acc, last).rest, toks)
    decreases |toks|, 1
  {
    hide EndOf, ReadValue, DropComments, Fail, NameOf, AfterMember, PutAll;
    var ts := DropComments(toks);
    var key, colon := Head(ts, eof), Head(Tail(ts), eof);
    TailOfDropIsEnd(toks);
    TailIsEnd(Tail(ts));
    EndOfTrans(Tail(Tail(ts)), Tail(ts), toks);
    if key.kind == ObjectEnd && last == [] {
    } else {
      match NameOf(cfg, key)
      case NoName => FailIsEnd(eof, Tail(ts), ObjectEnd, acc, [Error(MissingMemberName, key)], toks);
      case BadName(e) => FailIsEnd(eof, Tail(ts), ObjectEnd, acc, [Error(e, key)], toks);
      case Name(name) =>
        if colon.kind != MemberSeparator {
          FailIsEnd(eof, Tail(Tail(ts)), ObjectEnd, acc, [Error(MissingColon, colon)], toks);
        } else {
          ValueEnd(cfg, eof, Tail(Tail(ts)), depth + 1, Member(acc, name));
          var child := ReadValue(cfg, eof, Tail(Tail(ts)), depth + 1, Member(acc, name));
          EndOfTrans(child.rest, Tail(Tail(ts)), toks);
          AfterEnd(cfg, eof, |toks|, depth, acc + [Entry(name, child.val)], name, child, toks);
        }
    }
  }

  lemma {:induction false} AfterEnd(cfg: Config, eof: nat, bound: nat, depth: nat, acc: seq<Entry<Node>>, name: Bytes,
                                    child: Result<Node>, toks: seq<Token>)
    requires |child.rest| < bound && EndOf(child.rest, toks)
    requires |child.errors| == if child.status == Failed then 1 else 0
    ensures EndOf(AfterMember(cfg, eof, bound, depth, acc, name, child).rest, toks)
    decreases bound, 0
  {
    hide EndOf, DropComments, Fail, ReadMembers;
    FailIsEnd(eof, child.rest, ObjectEnd, acc, child.errors, toks);
    TailIsEnd(child.rest);
    EndOfTrans(Tail(child.rest), child.rest, toks);
    FailIsEnd(eof, Tail(child.rest), ObjectEnd, acc, [Error(MissingMemberSeparator, Head(child.rest, eof))], toks);
    var ts := DropComments(child.rest);
    TailOfDropIsEnd(child.rest);
    EndOfTrans(Tail(ts), child.rest, toks);
    if |Tail(ts)| < bound {
      MembersEnd(cfg, eof, Tail(ts), depth, acc, name);
      EndOfTrans(ReadMembers(cfg, eof, Tail(ts), depth, acc, name).rest, Tail(ts), toks);
    }
  }

  // ---------------------------------------------------------------- objects stay maps

  /** Every object in the tree has its keys in strictly ascending order. */
  ghost predicate Sorted(n: Node) {
    match n
    case LeafNode(_, _, _) => true
    case ArrNode(es, _, _) => forall e | e in es :: Sorted(e)
    case ObjNode(ms, _, _) => Ascending(ms) && forall m | m in ms :: Sorted(m.val)
  }

  ghost predicate SortedMembers(ms: seq<Entry<Node>>) {
    forall m | m in ms :: Sorted(m.val)
  }

  lemma PutSorted(ms: seq<Entry<Node>>, k: Bytes, n: Node)
    requires SortedMembers(ms) && Sorted(n)
    ensures SortedMembers(Put(ms, k, n))
  {
    hide Sorted;
    var r := Put(ms, k, n);
    forall m | m in r ensures Sorted(m.val) {
      assert m in ms || m == Entry(k, n);
    }
  }

  lemma {:induction false} PutAllSorted(acc: seq<Entry<Node>>)
    requires SortedMembers(acc)
    ensures SortedMembers(PutAll([], acc)) && Ascending(PutAll([], acc))
    decreases |acc|
  {
    hide Sorted, Put;
    PutAllIsAscending(acc);
    if acc != [] {
      var front := acc[..|acc| - 1];
      assert SortedMembers(front);
      PutAllSorted(front);
      PutSorted(PutAll([], front), acc[|acc| - 1].key, acc[|acc| - 1].val);
    }
  }

  lemma MemberSorted(acc: seq<Entry<Node>>, name: Bytes)
    requires SortedMembers(acc)
    ensures Sorted(Member(acc, name))
  {
    hide PutAll;
    PutAllSorted(acc);
    var m := PutAll([], acc);
    if Has(m, name) {
      assert m[LowerBound(m, name)] in m;
    }
  }

  lemma GrowSorted(acc: seq<Entry<Node>>, name: Bytes, n: Node)
    requires SortedMembers(acc) && Sorted(n)
    ensures SortedMembers(acc + [Entry(name, n)])
  {
    hide Sorted;
  }

  /** On every run, failed and aborted ones included, the tree built so far is sorted. */
  lemma {:induction false} ValueSorted(cfg: Config, eof: nat, toks: seq<Token>, depth: nat, cur: Node)
    requires Sorted(cur)
    ensures Sorted(ReadValue(cfg, eof, toks, depth, cur).val)
    decreases |toks|, 2
  {
    hide ReadMembers, ReadArray, PutAll, ScalarOf, SkipCommentTokens, Ascending;
    if depth <= STACK_LIMIT {
      var ts := SkipCommentTokens(cfg, toks);
      var tok := Head(ts, eof);
      if tok.kind == ObjectBegin {
        MembersSorted(cfg, eof, Tail(ts), depth, [], []);
        PutAllSorted(ReadMembers(cfg, eof, Tail(ts), depth, [], []).val);
      } else if tok.kind == ArrayBegin {
        if Head(Tail(ts), eof).kind != ArrayEnd {
          ElementsSorted(cfg, eof, Tail(ts), depth, []);
        }
        ArrayVal(cfg, eof, Tail(ts), depth);
      }
    }
  }

  lemma ArrayVal(cfg: Config, eof: nat, toks: seq<Token>, depth: nat)
    ensures ReadArray(cfg, eof, toks, depth).val ==
            if Head(toks, eof).kind == ArrayEnd then [] else ReadElements(cfg, eof, toks, depth, []).val
  {
    hide ReadElements;
  }

  lemma {:induction false} ElementsSorted(cfg: Config, eof: nat, toks: seq<Token>, depth: nat, acc: seq<Node>)
    requires forall e | e in acc :: Sorted(e)
    ensures forall e | e in ReadElements(cfg, eof, toks, depth, acc).val :: Sorted(e)
    decreases |toks|, 3
  {
    hide Sorted, ReadValue, DropComments, Recover;
    NullSorted();
    ValueSorted(cfg, eof, toks, depth + 1, NULL_NODE);
    var child := ReadValue(cfg, eof, toks, depth + 1, NULL_NODE);
    var acc' := acc + [child.val];
    assert forall e | e in acc' :: Sorted(e);
    var ts := DropComments(child.rest);
    if child.status == Ok && Head(ts, eof).kind == ArraySeparator {
      ElementsSorted(cfg, eof, Tail(ts), depth, acc');
    }
  }

  lemma NullSorted()
    ensures Sorted(NULL_NODE)
  {
  }

  lemma {:induction false} MembersSorted(cfg: Config, eof: nat, toks: seq<Token>, depth: nat, acc: seq<Entry<Node>>,
                                         last: Bytes)
    requires SortedMembers(acc)
    ensures SortedMembers(ReadMembers(cfg, eof, toks, depth, acc, last).val)
    decreases |toks|, 1
  {
    hide Sorted, SortedMembers, ReadValue, DropComments, NameOf, AfterMember, PutAll, Recover;
    var ts := DropComments(toks);
    var key, colon := Head(ts, eof), Head(Tail(ts), eof);
    if !(key.kind == ObjectEnd && last == []) && NameOf(cfg, key).Name? && colon.kind == MemberSeparator {
      var name := NameOf(cfg, key).name;
      MemberSorted(acc, name);
      ValueSorted(cfg, eof, Tail(Tail(ts)), depth + 1, Member(acc, name));
      var child := ReadValue(cfg, eof, Tail(Tail(ts)), depth + 1, Member(acc, name));
      GrowSorted(acc, name, child.val);
      AfterSorted(cfg, eof, |toks|, depth, acc + [Entry(name, child.val)], name, child);
    }
  }

  lemma {:induction false} AfterSorted(cfg: Config, eof: nat, bound: nat, depth: nat, acc: seq<Entry<Node>>,
                                       name: Bytes,
                                       child: Result<Node>)
    requires |child.rest| < bound && SortedMembers(acc)
    requires |child.errors| == if child.status == Failed then 1 else 0
    ensures SortedMembers(AfterMember(cfg, eof, bound, depth, acc, name, child).val)
    decreases bound, 0
  {
    hide Sorted, SortedMembers, DropComments, ReadMembers, Recover;
    var ts := DropComments(child.rest);
    if |Tail(ts)| < bound {
      MembersSorted(cfg, eof, Tail(ts), depth, acc, name);
    }
  }

  /** Every object of a parsed document lists its members in strictly ascending order. */
  lemma ParsedIsSorted(cfg: Config, t: Bytes, root: Node)
    requires Sorted(root)
    ensures Sorted(Parse(cfg, t, root).root)
  {
    hide Sorted, ReadValue, TokensFrom;
    ValueSorted(cfg, |t|, TokensFrom(t, 0), 1, root);
  }

  // ---------------------------------------------------------------- what an error says

  /** The token that an error names is one that cannot stand there, for the reason given. */
  predicate Justified(cfg: Config, e: Error) {
    var k := e.token.kind;
    match e.kind
    case ValueExpected =>
      && !IsScalarKind(k) && k != ObjectBegin && k != ArrayBegin
      && (k == ArraySeparator || k == ObjectEnd || k == ArrayEnd ==> !cfg.allowDroppedNull)
    case MissingColon => k != MemberSeparator
    case MissingMemberSeparator => k != ObjectEnd && k != ArraySeparator && k != Comment
    case MissingMemberName => k != StringToken && (k == NumberToken ==> !cfg.allowNumericKeys)
    case MissingArraySeparator => k != ArrayEnd && k != ArraySeparator && k != Comment
    case NotANumber => k == NumberToken && DecodeScalar(cfg, e.token.text).None?
    case BadString(cause) =>
      k == StringToken && DecodeLiteral(e.token.text).Undecodable? && DecodeLiteral(e.token.text).error == cause
    case RootNotContainer => cfg.strictRoot && k == ErrorToken && e.token.start == 0
  }

  predicate AllJustified(cfg: Config, errors: seq<Error>) {
    forall e | e in errors :: Justified(cfg, e)
  }

  lemma NoErrors(cfg: Config)
    ensures AllJustified(cfg, [])
  {
  }

  lemma NameErrors(cfg: Config, tok: Token)
    ensures NameOf(cfg, tok) == NoName ==> Justified(cfg, Error(MissingMemberName, tok))
    ensures NameOf(cfg, tok).BadName? ==> Justified(cfg, Error(NameOf(cfg, tok).kind, tok))
  {
    hide DecodeScalar, DecodeLiteral;
  }

  lemma ScalarErrors(cfg: Config, tok: Token)
    ensures ScalarOf(cfg, tok).Denies? ==> Justified(cfg, Error(ScalarOf(cfg, tok).kind, tok))
    ensures ScalarOf(cfg, tok) == NoScalar ==> !IsScalarKind(tok.kind)
  {
    hide DecodeScalar, DecodeLiteral;
  }

  /** One round of the member loop, as far as errors go. */
  lemma MembersRound(cfg: Config, eof: nat, toks: seq<Token>, depth: nat, acc: seq<Entry<Node>>, last: Bytes)
    ensures var ts := DropComments(toks);
            var (key, colon) := (Head(ts, eof), Head(Tail(ts), eof));
            var r := ReadMembers(cfg, eof, toks, depth, acc, last);
            if key.kind == ObjectEnd && last == [] then r.errors == []
            else
              match NameOf(cfg, key)
              case NoName => r.errors == [Error(MissingMemberName, key)]
              case BadName(e) => r.errors == [Error(e, key)]
              case Name(name) =>
                if colon.kind != MemberSeparator then r.errors == [Error(MissingColon, colon)]
                else
                  var child := ReadValue(cfg, eof, Tail(Tail(ts)), depth + 1, Member(acc, name));
                  && |child.rest| < |toks|
                  && r == AfterMember(cfg, eof, |toks|, depth, acc + [Entry(name, child.val)], name, child)
  {
    hide ReadValue, AfterMember, NameOf, DropComments, Recover, Member;
  }

  lemma AfterRound(cfg: Config, eof: nat, bound: nat, depth: nat, acc: seq<Entry<Node>>, name: Bytes,
                   child: Result<Node>)
    requires |child.rest| < bound && |child.errors| == if child.status == Failed then 1 else 0
    ensures var ts := DropComments(child.rest);
            var next := Head(child.rest, eof);
            var r := AfterMember(cfg, eof, bound, depth, acc, name, child);
            if child.status != Ok then r.errors == child.errors
            else if next.kind != ObjectEnd && next.kind != ArraySeparator && next.kind != Comment then
              r.errors == [Error(MissingMemberSeparator, next)]
            else if Head(ts, eof).kind == ObjectEnd then r.errors == []
            else |Tail(ts)| < bound && r == ReadMembers(cfg, eof, Tail(ts), depth, acc, name)
  {
    hide ReadMembers, Recover, DropComments;
  }

  /** On every run, whatever is reported is justified by the token it is reported at. */
  lemma {:induction false} ValueErrors(cfg: Config, eof: nat, toks: seq<Token>, depth: nat, cur: Node)
    ensures AllJustified(cfg, ReadValue(cfg, eof, toks, depth, cur).errors)
    decreases |toks|, 2
  {
    hide AllJustified, Justified, ReadMembers, ReadArray, PutAll, ScalarOf, SkipCommentTokens;
    NoErrors(cfg);
    if depth <= STACK_LIMIT {
      var ts := SkipCommentTokens(cfg, toks);
      var tok := Head(ts, eof);
      if tok.kind == ObjectBegin {
        MembersErrors(cfg, eof, Tail(ts), depth, [], []);
      } else if tok.kind == ArrayBegin {
        ArrayErrors(cfg, eof, Tail(ts), depth);
      } else {
        ScalarErrors(cfg, tok);
        if ScalarOf(cfg, tok) == NoScalar && !(cfg.allowDroppedNull && IsPlaceholder(tok.kind)) {
          ExpectedValue(cfg, tok);
        }
        OneError(cfg, ReadValue(cfg, eof, toks, depth, cur).errors);
      }
    }
  }

  lemma ExpectedValue(cfg: Config, tok: Token)
    requires !IsScalarKind(tok.kind) && tok.kind != ObjectBegin && tok.kind != ArrayBegin
    requires !(cfg.allowDroppedNull && IsPlaceholder(tok.kind))
    ensures Justified(cfg, Error(ValueExpected, tok))
  {
  }

  lemma OneError(cfg: Config, errors: seq<Error>)
    requires |errors| <= 1 && (errors != [] ==> Justified(cfg, errors[0]))
    ensures AllJustified(cfg, errors)
  {
    hide Justified;
  }

  lemma {:induction false} ArrayErrors(cfg: Config, eof: nat, toks: seq<Token>, depth: nat)
    ensures AllJustified(cfg, ReadArray(cfg, eof, toks, depth).errors)
    decreases |toks|, 4
  {
    hide AllJustified, ReadElements;
    NoErrors(cfg);
    ElementsErrors(cfg, eof, toks, depth, []);
  }

  lemma {:induction false} ElementsErrors(cfg: Config, eof: nat, toks: seq<Token>, depth: nat, acc: seq<Node>)
    ensures AllJustified(cfg, ReadElements(cfg, eof, toks, depth, acc).errors)
    decreases |toks|, 3
  {
    hide AllJustified, Justified, ReadValue, ReadElements, DropComments, Recover;
    NoErrors(cfg);
    ElementsRound(cfg, eof, toks, depth, acc);
    ValueErrors(cfg, eof, toks, depth + 1, NULL_NODE);
    var child := ReadValue(cfg, eof, toks, depth + 1, NULL_NODE);
    var ts := DropComments(child.rest);
    var next := Head(ts, eof);
    if child.status == Ok && next.kind == ArraySeparator {
      ElementsErrors(cfg, eof, Tail(ts), depth, acc + [child.val]);
    } else if child.status == Ok && next.kind != ArrayEnd {
      MissingSeparator(cfg, next);
      OneError(cfg, [Error(MissingArraySeparator, next)]);
    }
  }

  lemma MissingSeparator(cfg: Config, next: Token)
    ensures next.kind != ArrayEnd && next.kind != ArraySeparator && next.kind != Comment ==>
              Justified(cfg, Error(MissingArraySeparator, next))
    ensures next.kind != ObjectEnd && next.kind != ArraySeparator && next.kind != Comment ==>
              Justified(cfg, Error(MissingMemberSeparator, next))
    ensures next.kind != MemberSeparator ==> Justified(cfg, Error(MissingColon, next))
  {
  }

  lemma {:induction false} MembersErrors(cfg: Config, eof: nat, toks: seq<Token>, depth: nat, acc: seq<Entry<Node>>,
                                         last: Bytes)
    ensures AllJustified(cfg, ReadMembers(cfg, eof, toks, depth, acc, last).errors)
    decreases |toks|, 1
  {
    hide AllJustified, Justified, ReadValue, ReadMembers, AfterMember, NameOf, DropComments, Recover, Member;
    NoErrors(cfg);
    MembersRound(cfg, eof, toks, depth, acc, last);
    var ts := DropComments(toks);
    var key, colon := Head(ts, eof), Head(Tail(ts), eof);
    NameErrors(cfg, key);
    MissingSeparator(cfg, colon);
    if !(key.kind == ObjectEnd && last == []) && NameOf(cfg, key).Name? && colon.kind == MemberSeparator {
      var name := NameOf(cfg, key).name;
      ValueErrors(cfg, eof, Tail(Tail(ts)), depth + 1, Member(acc, name));
      var child := ReadValue(cfg, eof, Tail(Tail(ts)), depth + 1, Member(acc, name));
      AfterErrors(cfg, eof, |toks|, depth, acc + [Entry(name, child.val)], name, child);
    } else {
      OneError(cfg, ReadMembers(cfg, eof, toks, depth, acc, last).errors);
    }
  }

  lemma {:induction false} AfterErrors(cfg: Config, eof: nat, bound: nat, depth: nat, acc: seq<Entry<Node>>,
                                       name: Bytes, child: Result<Node>)
    requires |child.rest| < bound && |child.errors| == if child.status == Failed then 1 else 0
    requires AllJustified(cfg, child.errors)
    ensures AllJustified(cfg, AfterMember(cfg, eof, bound, depth, acc, name, child).errors)
    decreases bound, 0
  {
    hide AllJustified, Justified, ReadMembers, AfterMember, DropComments, Recover;
    NoErrors(cfg);
    AfterRound(cfg, eof, bound, depth, acc, name, child);
    var ts, next := DropComments(child.rest), Head(child.rest, eof);
    MissingSeparator(cfg, next);
    if child.status == Ok && (next.kind == ObjectEnd || next.kind == ArraySeparator || next.kind == Comment) {
      if Head(ts, eof).kind != ObjectEnd {
        MembersErrors(cfg, eof, Tail(ts), depth, acc, name);
      }
    } else if child.status == Ok {
      OneError(cfg, [Error(MissingMemberSeparator, next)]);
    }
  }

  /** Every error of a parse names a token that justifies it. */
  lemma ErrorsAreJustified(cfg: Config, t: Bytes, root: Node)
    ensures forall e | e in Parse(cfg, t, root).errors :: Justified(cfg, e)
  {
    hide Justified, ReadValue, TokensFrom;
    var r := ReadValue(cfg, |t|, TokensFrom(t, 0), 1, root);
    ValueErrors(cfg, |t|, TokensFrom(t, 0), 1, root);
    RootError(cfg, t);
  }

  lemma RootError(cfg: Config, t: Bytes)
    ensures cfg.strictRoot ==> Justified(cfg, Error(RootNotContainer, Token(ErrorToken, 0, |t|, t)))
  {
  }
}
