/**
 * The body of the PATCH request with which trimOldestBatch deletes entries: it writes the
 * names between quotes as they are. A JSON reader finds exactly those names in it if and only
 * if none of them contains a quote or a backslash.
 */
module PatchBodies {
  import opened Bytes
  import opened Seqs
  import opened Utf8
  import opened StringCodec
  import opened StringTheorems
  import opened Lexer
  import opened LexerTheorems
  import opened Values
  import opened ReaderSpec
  import opened FastWriters
  import opened Rendering
  import Forms
  import opened Truncation

  function MemberText(key: Bytes): Bytes {
    [QUOTE] + key + [QUOTE] + ([COLON] + NULL_TEXT)
  }

  /** The members and the closing brace. */
  function MembersText(keys: seq<Bytes>): Bytes {
    if keys == [] then [RBRACE]
    else MemberText(keys[0]) + (if |keys| == 1 then [] else [COMMA]) + MembersText(keys[1..])
  }

  function PatchBody(keys: seq<Bytes>): Bytes {
    [LBRACE] + MembersText(keys)
  }

  /** The loop that builds the body. */
  method BuildPatchBody(keys: seq<Bytes>) returns (body: Bytes)
    ensures body == PatchBody(keys)
  {
    hide MemberText;
    body := [LBRACE];
    for i := 0 to |keys|
      invariant body + (if 0 < i < |keys| then [COMMA] else []) + MembersText(keys[i..]) == PatchBody(keys)
    {
      assert keys[i..][0] == keys[i] && keys[i..][1..] == keys[i + 1..];
      if i > 0 {
        body := body + [COMMA];
      }
      ghost var before := body;
      body := body + [QUOTE];
      body := body + keys[i];
      body := body + ([QUOTE, COLON] + NULL_TEXT);
      MemberPieces(before, keys[i]);
      Regroup(before, MemberText(keys[i]), if i + 1 < |keys| then [COMMA] else [], MembersText(keys[i + 1..]));
    }
    assert keys[|keys|..] == [];
    body := body + [RBRACE];
  }

  lemma MemberPieces(b: Bytes, key: Bytes)
    ensures b + [QUOTE] + key + ([QUOTE, COLON] + NULL_TEXT) == b + MemberText(key)
  {
  }

  // ---------------------------------------------------------------- plain names

  predicate PlainName(key: Bytes) {
    forall c | c in key :: Inert(c)
  }

  predicate PlainNames(keys: seq<Bytes>) {
    forall k | k in keys :: PlainName(k)
  }

  lemma {:induction false} PlainDecodes(key: Bytes)
    requires PlainName(key)
    ensures DecodeContent(key) == Decoded(key, [])
  {
    if key != [] {
      assert Inert(key[0]);
      PlainDecodes(key[1..]);
      DecodePlain(key[0], key[1..]);
      assert key == [key[0]] + key[1..];
    }
  }

  lemma ClosedPlain(key: Bytes)
    requires PlainName(key)
    ensures RendersClosed([QUOTE] + key + [QUOTE], [Lexeme(StringToken, [QUOTE] + key + [QUOTE])])
  {
    hide Lex;
    var x := [QUOTE] + key + [QUOTE];
    forall post ensures Lex(x + post) == [Lexeme(StringToken, x)] + Lex(post) {
      var t := x + post;
      assert forall k | 1 <= k < 1 + |key| :: t[k] == key[k - 1];
      ScanInert(t, 1, |key|);
      LexFront(x, StringToken, post);
    }
  }

  lemma ClosedNull()
    ensures RendersClosed(NULL_TEXT, [Lexeme(NullToken, NULL_TEXT)])
  {
    hide Lex;
    forall post ensures Lex(NULL_TEXT + post) == [Lexeme(NullToken, NULL_TEXT)] + Lex(post) {
      LexWord(LOWER_N, NULL_TAIL, NullToken, post);
    }
  }

  function NameLexeme(key: Bytes): Lexeme {
    Lexeme(StringToken, [QUOTE] + key + [QUOTE])
  }

  const NULL_LEXEME: Lexeme := Lexeme(NullToken, NULL_TEXT)

  lemma LexMember(key: Bytes, post: Bytes)
    requires PlainName(key)
    ensures Lex(MemberText(key) + post) == [NameLexeme(key), Mark(COLON), NULL_LEXEME] + Lex(post)
  {
    hide Lex;
    ClosedPlain(key);
    ClosedMark(COLON);
    ClosedNull();
    ClosedConcat([COLON], [Mark(COLON)], NULL_TEXT, [NULL_LEXEME]);
    ClosedConcat([QUOTE] + key + [QUOTE], [NameLexeme(key)], [COLON] + NULL_TEXT, [Mark(COLON)] + [NULL_LEXEME]);
    assert [NameLexeme(key)] + ([Mark(COLON)] + [NULL_LEXEME]) == [NameLexeme(key), Mark(COLON), NULL_LEXEME];
  }

  lemma NullIsScalar(cfg: Config)
    ensures ScalarOf(cfg, Bare(NULL_LEXEME)) == Denotes(Null)
  {
  }

  // ---------------------------------------------------------------- reading lexemes

  /** The next token and the rest of a token list whose lexemes are known. */
  lemma Next(toks: seq<Token>, eof: nat, l: Lexeme, more: seq<Lexeme>)
    requires Lexemes(toks) == [l] + more
    ensures LexemeOf(Head(toks, eof)) == l && Lexemes(Tail(toks)) == more
    ensures l.kind != Comment ==> DropComments(toks) == toks
  {
    assert Lexemes(toks)[0] == l;
    assert Lexemes(Tail(toks)) == Lexemes(toks)[1..];
  }

  lemma SkipNothing(cfg: Config, toks: seq<Token>, l: Lexeme, more: seq<Lexeme>)
    requires Lexemes(toks) == [l] + more && l.kind != Comment
    ensures SkipCommentTokens(cfg, toks) == toks
  {
    Next(toks, 0, l, more);
  }

  lemma ReadAtom(cfg: Config, eof: nat, toks: seq<Token>, depth: nat, cur: Node, l: Lexeme, more: seq<Lexeme>)
    requires depth <= STACK_LIMIT && IsScalarKind(l.kind) && Lexemes(toks) == [l] + more
    ensures var r := ReadValue(cfg, eof, toks, depth, cur);
            && (r.status == Ok <==> ScalarOf(cfg, Bare(l)).Denotes?) && r.status != Aborted
            && (r.status == Ok ==> Strip(r.val) == Leaf(ScalarOf(cfg, Bare(l)).scalar) && Lexemes(r.rest) == more)
  {
    hide SkipCommentTokens, ReadMembers, ReadArray, DecodeScalar, DecodeLiteral;
    Next(toks, eof, l, more);
    Forms.PlaceIsIrrelevant(cfg, Head(toks, eof), l);
    SkipNothing(cfg, toks, l, more);
  }

  lemma OpenRecord(cfg: Config, eof: nat, toks: seq<Token>, depth: nat, cur: Node, tail: seq<Lexeme>)
    requires depth <= STACK_LIMIT && Lexemes(toks) == [Mark(LBRACE)] + tail
    ensures Lexemes(Tail(toks)) == tail
    ensures var m := ReadMembers(cfg, eof, Tail(toks), depth, [], []);
            ReadValue(cfg, eof, toks, depth, cur) ==
            Result(m.status, m.pos, m.rest,
                   ObjNode(PutAll([], m.val), Head(toks, eof).start,
                           if m.status == Aborted then cur.limit else m.pos), m.errors)
  {
    hide ReadArray, ReadMembers, SkipCommentTokens, PutAll;
    Next(toks, eof, Mark(LBRACE), tail);
    SkipNothing(cfg, toks, Mark(LBRACE), tail);
  }

  /** The member loop reads a name and a colon, and goes on to the value. */
  lemma ReadName(cfg: Config, eof: nat, toks: seq<Token>, depth: nat, acc: seq<Entry<Node>>, last: Bytes,
                 l: Lexeme, name: Bytes, after: seq<Lexeme>)
    requires l.kind == StringToken && NameOf(cfg, Bare(l)) == Name(name)
    requires Lexemes(toks) == [l, Mark(COLON)] + after
    ensures var rest := Tail(Tail(toks));
            var child := ReadValue(cfg, eof, rest, depth + 1, Member(acc, name));
            && Lexemes(rest) == after && |child.rest| < |toks|
            && ReadMembers(cfg, eof, toks, depth, acc, last) ==
               AfterMember(cfg, eof, |toks|, depth, acc + [Entry(name, child.val)], name, child)
  {
    hide ReadValue, AfterMember, NameOf, Member;
    assert Lexemes(toks) == [l] + ([Mark(COLON)] + after);
    Next(toks, eof, l, [Mark(COLON)] + after);
    Next(Tail(toks), eof, Mark(COLON), after);
    Forms.PlaceIsIrrelevant(cfg, Head(toks, eof), l);
  }

  /** After a member: a closing brace ends the object, a comma continues it. */
  lemma AfterValue(cfg: Config, eof: nat, bound: nat, depth: nat, acc: seq<Entry<Node>>, name: Bytes,
                   child: Result<Node>, c: byte, tail: seq<Lexeme>)
    requires child.status == Ok && |child.rest| < bound && child.errors == []
    requires c == RBRACE || c == COMMA
    requires Lexemes(child.rest) == [Mark(c)] + tail
    ensures Lexemes(Tail(child.rest)) == tail
    ensures AfterMember(cfg, eof, bound, depth, acc, name, child) ==
            if c == RBRACE then Result(Ok, Head(child.rest, eof).end, Tail(child.rest), acc, [])
            else ReadMembers(cfg, eof, Tail(child.rest), depth, acc, name)
  {
    hide ReadMembers, DropComments;
    Next(child.rest, eof, Mark(c), tail);
  }

  /** The member loop over one plain name with a null, up to what follows the null. */
  lemma ReadPlainMember(cfg: Config, eof: nat, toks: seq<Token>, depth: nat, acc: seq<Entry<Node>>, last: Bytes,
                        key: Bytes, c: byte, tail: seq<Lexeme>)
    requires PlainName(key) && depth < STACK_LIMIT
    requires c == RBRACE || c == COMMA
    requires Lexemes(toks) == [NameLexeme(key), Mark(COLON), NULL_LEXEME] + ([Mark(c)] + tail)
    ensures exists child: Result<Node> ::
            && Strip(child.val) == Leaf(Null) && |child.rest| < |toks| && Lexemes(Tail(child.rest)) == tail
            && ReadMembers(cfg, eof, toks, depth, acc, last) ==
               if c == RBRACE then Result(Ok, Head(child.rest, eof).end, Tail(child.rest),
                                          acc + [Entry(key, child.val)], [])
               else ReadMembers(cfg, eof, Tail(child.rest), depth, acc + [Entry(key, child.val)], key)
  {
    hide ReadValue, AfterMember, Member, Strip, NameOf, ScalarOf;
    var after := [NULL_LEXEME] + ([Mark(c)] + tail);
    assert Lexemes(toks) == [NameLexeme(key), Mark(COLON)] + after;
    PlainNameOf(cfg, key);
    ReadName(cfg, eof, toks, depth, acc, last, NameLexeme(key), key, after);
    var rest := Tail(Tail(toks));
    var child := ReadValue(cfg, eof, rest, depth + 1, Member(acc, key));
    NullIsScalar(cfg);
    ReadAtom(cfg, eof, rest, depth + 1, Member(acc, key), NULL_LEXEME, [Mark(c)] + tail);
    AfterValue(cfg, eof, |toks|, depth, acc + [Entry(key, child.val)], key, child, c, tail);
  }

  lemma PlainNameOf(cfg: Config, key: Bytes)
    requires PlainName(key)
    ensures NameOf(cfg, Bare(NameLexeme(key))) == Name(key)
  {
    hide DecodeContent;
    PlainDecodes(key);
    assert ([QUOTE] + key + [QUOTE])[1..|key| + 1] == key;
  }

  // ---------------------------------------------------------------- names that are not plain

  /**
   * Scanning a string from inside a name whose closing quote is at `m`: the scan stops at the
   * closing quote or before it, or a backslash at the end of the name hides that quote.
   */
  lemma {:induction false} ScanName(t: Bytes, j: nat, m: nat)
    requires j <= m < |t| && t[m] == QUOTE
    ensures var r := ScanString(t, j);
            || (r.ok && r.end <= m + 1)
            || (j < m && t[m - 1] == BACKSLASH && r == ScanString(t, m + 1))
    decreases m - j
  {
    if j < m && t[j] == BACKSLASH {
      if j + 2 <= m {
        ScanName(t, j + 2, m);
      }
    } else if j < m && t[j] != QUOTE {
      ScanName(t, j + 1, m);
    }
  }

  /** A string without an unescaped quote that has a quote or a backslash has a backslash. */
  lemma {:induction false} ScannedHasBackslash(t: Bytes, j: nat, m: nat)
    requires j <= m < |t| && ScanString(t, j) == Scan(true, m + 1)
    requires !PlainName(t[j..m])
    ensures BACKSLASH in t[j..m]
    decreases m - j
  {
    if t[j] != BACKSLASH {
      assert t[j..m] == [t[j]] + t[j + 1..m];
      ScannedHasBackslash(t, j + 1, m);
    }
  }

  /** Decoding never lengthens a string, and every escape shortens it. */
  lemma {:induction false} DecodeShrinks(c: Bytes)
    requires DecodeContent(c).Decoded?
    ensures |DecodeContent(c).out| <= |c|
    ensures BACKSLASH in c && DecodeContent(c).rest == [] ==> |DecodeContent(c).out| < |c|
    decreases |c|
  {
    hide CodePointToUtf8, DecodeUnicode;
    if c != [] && c[0] != QUOTE {
      if c[0] != BACKSLASH {
        DecodeShrinks(c[1..]);
      } else if Unescape(c[1]) >= 0 {
        DecodeShrinks(c[2..]);
      } else {
        var u := DecodeUnicode(c[2..]);
        DecodeShrinks(c[2 + u.size..]);
        EncodedLength(u.cp);
      }
    }
  }

  lemma EncodedLength(cp: nat)
    ensures |CodePointToUtf8(cp)| <= 4
  {
  }

  /** How many characters the decoder consumes first. */
  function FirstSize(c: Bytes): nat
    requires c != []
  {
    if c[0] != BACKSLASH || |c| == 1 then 1
    else if Unescape(c[1]) >= 0 then 2
    else 2 + if DecodeUnicode(c[2..]).CodePoint? then DecodeUnicode(c[2..]).size else 0
  }

  /** What they become. */
  function FirstOut(c: Bytes): Bytes
    requires c != []
  {
    if c[0] != BACKSLASH || |c| == 1 then [c[0]]
    else if Unescape(c[1]) >= 0 then [Unescape(c[1])]
    else if DecodeUnicode(c[2..]).CodePoint? then CodePointToUtf8(DecodeUnicode(c[2..]).cp)
    else []
  }

  ghost predicate DecodesFirst(c: Bytes)
    requires c != []
  {
    && FirstSize(c) <= |c|
    && DecodeContent(c) == DecodeContent(c[FirstSize(c)..]).Prepend(FirstOut(c))
    && (c[0] == BACKSLASH ==> FirstSize(c) >= 2)
  }

  lemma FirstPlain(c: Bytes)
    requires c != [] && c[0] != BACKSLASH && c[0] != QUOTE
    ensures DecodesFirst(c)
  {
    hide DecodeContent;
    DecodeNoEscape(c);
  }

  lemma FirstShort(c: Bytes)
    requires |c| >= 2 && c[0] == BACKSLASH && Unescape(c[1]) >= 0
    ensures DecodesFirst(c)
  {
    hide DecodeContent, DecodeUnicode;
    DecodeEscape(c);
  }

  lemma FirstLong(c: Bytes)
    requires |c| >= 2 && c[0] == BACKSLASH && c[1] == LOWER_U && DecodeUnicode(c[2..]).CodePoint?
    ensures DecodesFirst(c)
  {
    hide DecodeContent, DecodeUnicode, CodePointToUtf8;
    assert Unescape(c[1]) < 0;
    DecodeLongEscape(c);
  }

  lemma DecodeFirst(c: Bytes)
    requires c != [] && DecodeContent(c).Decoded? && DecodeContent(c).rest == []
    ensures DecodesFirst(c)
  {
    hide DecodeUnicode, DecodeContent, DecodesFirst;
    if c[0] != BACKSLASH {
      DecodeNoEscape(c);
      FirstPlain(c);
    } else {
      DecodeEscape(c);
      if Unescape(c[1]) >= 0 {
        FirstShort(c);
      } else {
        DecodeLongEscape(c);
        FirstLong(c);
      }
    }
  }

  lemma FirstHasNoComma(c: Bytes)
    requires c != [] && DecodeContent(c).Decoded? && DecodeContent(c).rest == []
    ensures FirstSize(c) <= |c| && (c[FirstSize(c) - 1] == COMMA ==> c[0] == COMMA && FirstSize(c) == 1)
  {
    hide CodePointToUtf8, DecodeUnicode, DecodeContent;
    DecodeFirst(c);
    if c[0] == BACKSLASH {
      DecodeEscape(c);
    }
    if c[0] == BACKSLASH && Unescape(c[1]) < 0 {
      DecodeLongEscape(c);
      UnicodeHasNoComma(c[2..]);
      var n := DecodeUnicode(c[2..]).size;
      assert c[2..][..n][n - 1] == c[2 + n - 1];
    }
  }

  /** A comma at the end of a string is not part of any escape. */
  lemma {:induction false} DecodeKeepsComma(c: Bytes)
    requires c != [] && c[|c| - 1] == COMMA
    requires DecodeContent(c).Decoded? && DecodeContent(c).rest == []
    ensures var n := DecodeContent(c).out; n != [] && n[|n| - 1] == COMMA
    decreases |c|
  {
    DecodeFirst(c);
    FirstHasNoComma(c);
    EmptyDecodes();
    var k, front := FirstSize(c), FirstOut(c);
    KeepsComma(c, k, front, DecodeContent(c[k..]), DecodeContent(c));
    if k < |c| {
      assert c[k..][|c| - k - 1] == COMMA;
      DecodeKeepsComma(c[k..]);
    }
  }

  lemma EmptyDecodes()
    ensures DecodeContent([]) == Decoded([], [])
  {
  }

  lemma KeepsComma(c: Bytes, k: nat, front: Bytes, rest: DecodedString, all: DecodedString)
    requires 1 <= k <= |c| && all == rest.Prepend(front) && all.Decoded? && all.rest == []
    requires c[|c| - 1] == COMMA && (c[k - 1] == COMMA ==> c[0] == COMMA && k == 1 && front == [c[0]])
    ensures rest.Decoded? && rest.rest == [] && all.out == front + rest.out
    ensures k == |c| && rest.out == [] ==> all.out == [COMMA]
    ensures rest.out != [] ==> all.out != [] && all.out[|all.out| - 1] == rest.out[|rest.out| - 1]
  {
  }

  lemma UnicodeHasNoComma(c: Bytes)
    requires DecodeUnicode(c).CodePoint?
    ensures COMMA !in c[..DecodeUnicode(c).size]
  {
    FourHaveNoComma(c);
    if DecodeUnicode(c).size == 10 {
      FourHaveNoComma(c[6..]);
      assert c[..10] == c[..4] + [c[4], c[5]] + c[6..][..4];
    }
  }

  lemma FourHaveNoComma(c: Bytes)
    requires DecodeFour(c).CodePoint?
    ensures COMMA !in c[..4]
  {
    assert HexValue(c[3]) >= 0 && HexValues(c, 3) >= 0;
    assert HexValue(c[2]) >= 0 && HexValues(c, 2) >= 0;
    assert HexValue(c[1]) >= 0 && HexValues(c, 1) >= 0;
    assert HexValue(c[0]) >= 0;
  }

  lemma ContentIsAligned(t: Bytes, end: nat)
    requires 0 < |t| && end <= |t| && ScanString(t, 1) == Scan(true, end)
    requires DecodeContent(t[1..end - 1]).Decoded?
    ensures DecodeContent(t[1..end - 1]).rest == []
  {
    hide ScanString, DecodeContent;
    var u := t[0..end];
    StringOfPart(t, 0, end, u, 1);
    ScannedIsAligned(u, 1);
    assert u[1..end - 1] == t[1..end - 1];
  }

  lemma MembersTextStep(keys: seq<Bytes>, c: byte, post: Bytes)
    requires keys != []
    requires c == if |keys| == 1 then RBRACE else COMMA
    requires post == if |keys| == 1 then [] else MembersText(keys[1..])
    ensures MembersText(keys) == MemberText(keys[0]) + ([c] + post)
  {
    hide MemberText;
    if |keys| == 1 {
      assert MembersText(keys[1..]) == [RBRACE];
      assert MemberText(keys[0]) + [] == MemberText(keys[0]);
    }
  }

  /** The text of one member, place by place. */
  lemma MemberTextParts(key: Bytes)
    ensures var t, m := MemberText(key), 1 + |key|;
            && |t| == m + 6 && t[0] == QUOTE && t[1..m] == key && t[m] == QUOTE
            && t[m + 1..] == [COLON, LOWER_N, LOWER_U, 0x6C, 0x6C]
  {
    var open := [QUOTE] + key + [QUOTE];
    assert MemberText(key) == open + ([COLON] + NULL_TEXT);
    assert |open| == |key| + 2 && open[0] == QUOTE && open[1..1 + |key|] == key && open[1 + |key|] == QUOTE;
    SliceOfSlice(MemberText(key), 0, |open|, 1, 1 + |key|);
    assert MemberText(key)[0..|open|] == open;
  }

  lemma PrefixParts(x: Bytes, t: Bytes, m: nat, c: byte, post: Bytes)
    requires t == x + ([c] + post) && 1 <= m && |x| == m + 6
    ensures |t| == m + 7 + |post| && t[0] == x[0] && t[1..m] == x[1..m] && t[m] == x[m]
    ensures t[m + 1..m + 6] == x[m + 1..] && t[m + 6] == c && t[m + 7..] == post
  {
  }

  /** What follows the name in the text of the members. */
  lemma AfterName(keys: seq<Bytes>)
    requires keys != []
    ensures var t, m := MembersText(keys), 1 + |keys[0]|;
            && m + 7 <= |t| && t[0] == QUOTE && t[1..m] == keys[0] && t[m] == QUOTE
            && (forall k | m + 1 <= k < m + 7 :: Inert(t[k]))
            && (if |keys| == 1 then |t| == m + 7 else t[m + 6] == COMMA && |t| > m + 7 && t[m + 7] == QUOTE)
  {
    hide MembersText, MemberText;
    var t, m := MembersText(keys), 1 + |keys[0]|;
    var c := if |keys| == 1 then RBRACE else COMMA;
    var post := if |keys| == 1 then [] else MembersText(keys[1..]);
    MembersTextStep(keys, c, post);
    MemberTextParts(keys[0]);
    PrefixParts(MemberText(keys[0]), t, m, c, post);
    if |keys| > 1 {
      StartsWithQuote(keys[1..]);
      assert t[m + 7] == post[0];
    }
    InertAt(t, m, c);
  }

  lemma StartsWithQuote(keys: seq<Bytes>)
    requires keys != []
    ensures MembersText(keys) != [] && MembersText(keys)[0] == QUOTE
  {
    hide MemberText;
    MemberTextParts(keys[0]);
  }

  lemma InertAt(t: Bytes, m: nat, c: byte)
    requires m + 7 <= |t| && t[m + 1..m + 6] == [COLON, LOWER_N, LOWER_U, 0x6C, 0x6C] && t[m + 6] == c
    requires c == RBRACE || c == COMMA
    ensures forall k | m + 1 <= k < m + 7 :: Inert(t[k])
  {
    var w := t[m + 1..m + 6];
    assert w[0] == t[m + 1] && w[1] == t[m + 2] && w[2] == t[m + 3] && w[3] == t[m + 4] && w[4] == t[m + 5];
  }

  lemma BadNameDiffers(keys: seq<Bytes>)
    requires keys != [] && !PlainName(keys[0])
    ensures var t := MembersText(keys);
            var r := ScanString(t, 1);
            r.ok ==> DecodeContent(t[1..r.end - 1]).Decoded? ==> DecodeContent(t[1..r.end - 1]).out != keys[0]
  {
    hide MembersText, DecodeContent, ScanString;
    var t, key := MembersText(keys), keys[0];
    var m := 1 + |key|;
    AfterName(keys);
    ScanName(t, 1, m);
    var r := ScanString(t, 1);
    if r.ok && DecodeContent(t[1..r.end - 1]).Decoded? {
      ContentIsAligned(t, r.end);
      DecodeShrinks(t[1..r.end - 1]);
      if r.end == m + 1 {
        ScannedHasBackslash(t, 1, m);
      } else if r.end > m + 1 {
        HiddenQuote(keys);
        assert t[1..m][|key| - 1] == t[m - 1];
        DecodeKeepsComma(t[1..r.end - 1]);
      }
    }
  }

  /** A name that ends in a backslash runs on to the next name. */
  lemma HiddenQuote(keys: seq<Bytes>)
    requires keys != []
    ensures var t, m := MembersText(keys), 1 + |keys[0]|;
            m + 7 <= |t| && ScanString(t, m + 1) == if |keys| == 1 then Scan(false, |t|) else Scan(true, m + 8)
  {
    hide MembersText;
    var t, m := MembersText(keys), 1 + |keys[0]|;
    AfterName(keys);
    ScanInert(t, m + 1, 6);
  }

  /** The token that a name with a quote or a backslash becomes has a different name, or none. */
  lemma BadNameOf(cfg: Config, keys: seq<Bytes>, tok: Token)
    requires keys != [] && !PlainName(keys[0])
    requires LexemeOf(tok) == LexemeOf(ReadToken(MembersText(keys), 0))
    ensures tok.kind != ObjectEnd && tok.kind != Comment && NameOf(cfg, tok) != Name(keys[0])
  {
    hide MembersText, DecodeContent;
    var t := MembersText(keys);
    AfterName(keys);
    assert SkipSpaces(t, 0) == 0;
    var r := ScanString(t, 1);
    assert TokenAt(t, 0) == Finish(StringToken, r);
    BadNameDiffers(keys);
    if r.ok {
      assert tok.text == t[0..r.end];
      assert |tok.text| == r.end;
      SliceOfSlice(t, 0, r.end, 1, r.end - 1);
    }
  }

  lemma FirstOfMembers(keys: seq<Bytes>)
    requires keys != []
    ensures var tok := ReadToken(MembersText(keys), 0);
            Lex(MembersText(keys)) == [LexemeOf(tok)] + Lex(MembersText(keys)[tok.end..])
  {
    hide MembersText, Lex;
    AfterName(keys);
    LexStep(MembersText(keys));
    assert SkipSpaces(MembersText(keys), 0) == 0;
  }

  function NullMembers(keys: seq<Bytes>): (r: seq<Entry<Value>>)
    ensures |r| == |keys| && forall i | 0 <= i < |keys| :: r[i] == Entry(keys[i], Leaf(Null))
  {
    seq(|keys|, i requires 0 <= i < |keys| => Entry(keys[i], Leaf(Null)))
  }

  /** A bad name: what is read does not go on with that name. */
  lemma StopAtBadName(cfg: Config, eof: nat, toks: seq<Token>, depth: nat, acc: seq<Entry<Node>>, last: Bytes,
                      keys: seq<Bytes>)
    requires keys != [] && !PlainName(keys[0])
    requires Lexemes(toks) == Lex(MembersText(keys))
    ensures KeysOf(ReadMembers(cfg, eof, toks, depth, acc, last).val) != KeysOf(acc) + keys
  {
    hide MembersText, Lex, AfterMember, ReadValue, NameOf, ReadToken, Recover, Member;
    FirstOfMembers(keys);
    var first := ReadToken(MembersText(keys), 0);
    Next(toks, eof, LexemeOf(first), Lex(MembersText(keys)[first.end..]));
    var tok := Head(toks, eof);
    BadNameOf(cfg, keys, tok);
    var r := ReadMembers(cfg, eof, toks, depth, acc, last);
    if NameOf(cfg, tok).Name? && Head(Tail(toks), eof).kind == MemberSeparator {
      var name := NameOf(cfg, tok).name;
      var child := ReadValue(cfg, eof, Tail(Tail(toks)), depth + 1, Member(acc, name));
      var acc' := acc + [Entry(name, child.val)];
      AfterExtends(cfg, eof, |toks|, depth, acc', name, child);
      assert acc' <= r.val;
      assert KeysOf(r.val)[|acc|] == name;
      assert (KeysOf(acc) + keys)[|acc|] == keys[0];
    } else {
      assert r.val == acc;
      assert |KeysOf(acc) + keys| > |KeysOf(acc)|;
    }
  }

  lemma {:induction false} ReadNames(cfg: Config, eof: nat, toks: seq<Token>, acc: seq<Entry<Node>>,
                                     last: Bytes, keys: seq<Bytes>)
    requires keys != []
    requires Lexemes(toks) == Lex(MembersText(keys))
    ensures var r := ReadMembers(cfg, eof, toks, 1, acc, last);
            && (KeysOf(r.val) == KeysOf(acc) + keys <==> PlainNames(keys))
            && (PlainNames(keys) ==> r.status == Ok && StripMembers(r.val) == StripMembers(acc) + NullMembers(keys))
    decreases |keys|
  {
    hide Lex, ReadMembers, Strip, MemberText;
    assert keys[0] in keys && keys == [keys[0]] + keys[1..];
    if !PlainName(keys[0]) {
      StopAtBadName(cfg, eof, toks, 1, acc, last, keys);
    } else {
      var c := if |keys| == 1 then RBRACE else COMMA;
      var post := if |keys| == 1 then [] else MembersText(keys[1..]);
      LexMembers(keys, c, post);
      ReadPlainMember(cfg, eof, toks, 1, acc, last, keys[0], c, Lex(post));
      var child: Result<Node> :|
        && Strip(child.val) == Leaf(Null) && |child.rest| < |toks| && Lexemes(Tail(child.rest)) == Lex(post)
        && ReadMembers(cfg, eof, toks, 1, acc, last) ==
           if c == RBRACE then Result(Ok, Head(child.rest, eof).end, Tail(child.rest),
                                      acc + [Entry(keys[0], child.val)], [])
           else ReadMembers(cfg, eof, Tail(child.rest), 1, acc + [Entry(keys[0], child.val)], keys[0]);
      GrowNames(acc, keys, child.val);
      if |keys| > 1 {
        ReadNames(cfg, eof, Tail(child.rest), acc + [Entry(keys[0], child.val)], keys[0], keys[1..]);
        RestNames(acc, keys, child.val);
        assert PlainNames(keys) <==> PlainNames(keys[1..]);
      }
    }
  }

  lemma SeparatorIsMark(c: byte, post: Bytes)
    requires c == RBRACE || c == COMMA
    ensures Lex([c] + post) == [Mark(c)] + Lex(post)
  {
    LexPunctuation(c, post);
  }

  lemma LexMembers(keys: seq<Bytes>, c: byte, post: Bytes)
    requires keys != [] && PlainName(keys[0])
    requires c == if |keys| == 1 then RBRACE else COMMA
    requires post == if |keys| == 1 then [] else MembersText(keys[1..])
    ensures Lex(MembersText(keys)) == [NameLexeme(keys[0]), Mark(COLON), NULL_LEXEME] + ([Mark(c)] + Lex(post))
  {
    hide Lex, MemberText, MembersText, Punctuation;
    MembersTextStep(keys, c, post);
    LexMember(keys[0], [c] + post);
    SeparatorIsMark(c, post);
  }

  lemma GrowNames(acc: seq<Entry<Node>>, keys: seq<Bytes>, n: Node)
    requires keys != [] && Strip(n) == Leaf(Null)
    ensures var acc' := acc + [Entry(keys[0], n)];
            KeysOf(acc') == KeysOf(acc) + [keys[0]] && StripMembers(acc') == StripMembers(acc) + NullMembers([keys[0]])
  {
    hide Strip;
  }

  lemma RestNames(acc: seq<Entry<Node>>, keys: seq<Bytes>, n: Node)
    requires keys != []
    ensures KeysOf(acc) + [keys[0]] + keys[1..] == KeysOf(acc) + keys
    ensures StripMembers(acc) + NullMembers([keys[0]]) + NullMembers(keys[1..]) == StripMembers(acc) + NullMembers(keys)
  {
    assert keys == [keys[0]] + keys[1..];
    assert NullMembers(keys) == NullMembers([keys[0]]) + NullMembers(keys[1..]);
  }

  /**
   * The names found in the body are the intended ones, in order, exactly when none of them
   * contains a quote or a backslash.
   */
  lemma PatchNamesItsKeys(cfg: Config, keys: seq<Bytes>)
    requires keys != []
    ensures Listed(cfg, PatchBody(keys)) == keys <==> PlainNames(keys)
  {
    hide MembersText, ReadMembers;
    var ls := TokensFrom(PatchBody(keys), 0);
    LexPunctuation(LBRACE, MembersText(keys));
    assert Lexemes(ls) == [Mark(LBRACE)] + Lex(MembersText(keys));
    var eof := |PatchBody(keys)|;
    Next(ls, eof, Mark(LBRACE), Lex(MembersText(keys)));
    SkipNothing(cfg, ls, Mark(LBRACE), Lex(MembersText(keys)));
    ReadNames(cfg, eof, Tail(ls), [], [], keys);
    assert KeysOf<Node>([]) + keys == keys;
  }

  /** With plain names in ascending order the body is an object that maps each of them to null. */
  lemma PatchIsNullObject(cfg: Config, keys: seq<Bytes>)
    requires keys != [] && PlainNames(keys)
    requires forall i, j | 0 <= i < j < |keys| :: KeyLess(keys[i], keys[j])
    ensures var p := Parse(cfg, PatchBody(keys), NULL_NODE);
            p.status == Ok && Strip(p.root) == Obj(NullMembers(keys))
  {
    hide MembersText, ReadMembers, PutAll, Strip, KeyLess;
    var ls := TokensFrom(PatchBody(keys), 0);
    LexPunctuation(LBRACE, MembersText(keys));
    assert Lexemes(ls) == [Mark(LBRACE)] + Lex(MembersText(keys));
    var eof := |PatchBody(keys)|;
    Next(ls, eof, Mark(LBRACE), Lex(MembersText(keys)));
    SkipNothing(cfg, ls, Mark(LBRACE), Lex(MembersText(keys)));
    ReadNames(cfg, eof, Tail(ls), [], [], keys);
    var r := ReadMembers(cfg, eof, Tail(ls), 1, [], []);
    assert StripMembers(r.val) == NullMembers(keys);
    StripPutAll(r.val);
    PutAllAscending(NullMembers(keys));
    StripObj(PutAll([], r.val), Head(ls, eof).start, r.pos);
  }

  /** The name a":null,"b makes the body that deletes a and b instead. */
  lemma OneNameDeletesTwo(cfg: Config)
    ensures var odd: Bytes := [LOWER_A, QUOTE, COLON] + NULL_TEXT + [COMMA, QUOTE, LOWER_B];
            Listed(cfg, PatchBody([odd])) == [[LOWER_A], [LOWER_B]]
  {
    hide Listed;
    var odd: Bytes := [LOWER_A, QUOTE, COLON] + NULL_TEXT + [COMMA, QUOTE, LOWER_B];
    var two: seq<Bytes> := [[LOWER_A], [LOWER_B]];
    assert MembersText(two[1..]) == MemberText([LOWER_B]) + [RBRACE] by {
      assert two[1..] == [[LOWER_B]];
      assert MembersText(two[1..][1..]) == [RBRACE];
    }
    assert MembersText([odd]) == MemberText(odd) + [RBRACE];
    assert PatchBody([odd]) == PatchBody(two);
    PatchNamesItsKeys(cfg, two);
  }
}
