/**
 * Why trimOldestBatch needs what is taken for granted about the connection and about long
 * listings: two servers on which it names the wrong entries.
 */
module TrimExamples {
  import opened Bytes
  import opened StringTheorems
  import opened Numbers
  import opened Lexer
  import opened LexerTheorems
  import opened Values
  import opened ReaderSpec
  import opened FastWriters
  import opened Rendering
  import opened Truncation
  import opened PatchBodies
  import opened ReceiveBuffers
  import opened Firebase
  import opened FirebaseTheorems
  import opened TrimTheorems

  /** A document that starts with one member and breaks off after its value has that one name. */
  lemma OneNameIn(cfg: Config, t: Bytes, key: Bytes, l: Lexeme, after: seq<Lexeme>)
    requires PlainName(key) && IsScalarKind(l.kind) && ScalarOf(cfg, Bare(l)).Denotes?
    requires Lex(t) == [Mark(LBRACE), NameLexeme(key), Mark(COLON), l] + after
    requires after == [Mark(COMMA)] || (after != [] && after[0].kind == ErrorToken)
    ensures Listed(cfg, t) == [key] && NamesIn(cfg, t) == [key]
  {
    hide Lex, ReadMembers, PutAll, Lexemes, TokensFrom, ScalarOf;
    var toks := TokensFrom(t, 0);
    LexIsLexemes(t);
    var tail := [NameLexeme(key), Mark(COLON), l] + after;
    assert Lex(t) == [Mark(LBRACE)] + tail;
    OpenRecord(cfg, |t|, toks, 1, NULL_NODE, tail);
    Next(toks, |t|, Mark(LBRACE), tail);
    SkipNothing(cfg, toks, Mark(LBRACE), tail);
    OneMember(cfg, |t|, Tail(toks), key, l, after);
    PutAllAscending(ReadMembers(cfg, |t|, Tail(toks), 1, [], []).val);
  }

  lemma OneMember(cfg: Config, eof: nat, toks: seq<Token>, key: Bytes, l: Lexeme, after: seq<Lexeme>)
    requires PlainName(key) && IsScalarKind(l.kind) && ScalarOf(cfg, Bare(l)).Denotes?
    requires Lexemes(toks) == [NameLexeme(key), Mark(COLON), l] + after
    requires after == [Mark(COMMA)] || (after != [] && after[0].kind == ErrorToken)
    ensures var r := ReadMembers(cfg, eof, toks, 1, [], []);
            r.status == Failed && KeysOf(r.val) == [key]
  {
    hide ReadValue, AfterMember, Member, NameOf, Lexemes, ScalarOf, ReadMembers;
    var value := [l] + after;
    assert Lexemes(toks) == [NameLexeme(key), Mark(COLON)] + value;
    PlainNameOf(cfg, key);
    ReadName(cfg, eof, toks, 1, [], [], NameLexeme(key), key, value);
    var rest := Tail(Tail(toks));
    var child := ReadValue(cfg, eof, rest, 2, Member([], key));
    ReadAtom(cfg, eof, rest, 2, Member([], key), l, after);
    assert [] + [Entry(key, child.val)] == [Entry(key, child.val)];
    BreaksOff(cfg, eof, |toks|, [Entry(key, child.val)], key, child, after);
  }

  lemma BreaksOff(cfg: Config, eof: nat, bound: nat, acc: seq<Entry<Node>>, name: Bytes, child: Result<Node>,
                  after: seq<Lexeme>)
    requires child.status == Ok && child.errors == [] && |child.rest| < bound && Lexemes(child.rest) == after
    requires after == [Mark(COMMA)] || (after != [] && after[0].kind == ErrorToken)
    ensures var r := AfterMember(cfg, eof, bound, 1, acc, name, child); r.status == Failed && r.val == acc
  {
    hide ReadMembers, Recover;
    assert after == [after[0]] + after[1..];
    Next(child.rest, eof, after[0], after[1..]);
    if after == [Mark(COMMA)] {
      assert Tail(child.rest) == [];
      NothingMore(cfg, eof, acc, name);
    }
  }

  lemma NothingMore(cfg: Config, eof: nat, acc: seq<Entry<Node>>, name: Bytes)
    ensures var r := ReadMembers(cfg, eof, [], 1, acc, name); r.status == Failed && r.val == acc
  {
  }

  // ---------------------------------------------------------------- an unfinished response

  const LISTED_NAME: Bytes := [COLON, 0x31]
  const WRONG_NAME: Bytes := [0x7A, LBRACE]
  /** {"z */
  const UNFINISHED: Bytes := [LBRACE, QUOTE, 0x7A]
  /** {":1":null} */
  const LISTING: Bytes := PatchBody([LISTED_NAME])

  lemma ListingNames(cfg: Config)
    ensures Listed(cfg, LISTING) == [LISTED_NAME]
  {
    PatchNamesItsKeys(cfg, [LISTED_NAME]);
  }

  lemma ListingText()
    ensures LISTING == [LBRACE, QUOTE, COLON, 0x31, QUOTE, COLON] + NULL_TEXT + [RBRACE]
  {
    var keys: seq<Bytes> := [LISTED_NAME];
    assert MembersText(keys[1..]) == [RBRACE];
  }

  /** {"z{":1":null}: the two responses run together. */
  lemma RunTogether(cfg: Config)
    ensures NamesIn(cfg, UNFINISHED + LISTING) == [WRONG_NAME]
  {
    hide Lex, NamesIn, MembersText, ScalarOf;
    ListingText();
    var broken: Bytes := [QUOTE, COLON] + NULL_TEXT + [RBRACE];
    var one := [LBRACE];
    var name := [QUOTE] + WRONG_NAME + [QUOTE];
    assert UNFINISHED + LISTING == one + (name + ([COLON] + ([0x31] + broken)));
    LexPunctuation(LBRACE, name + ([COLON] + ([0x31] + broken)));
    ClosedPlain(WRONG_NAME);
    LexPunctuation(COLON, [0x31] + broken);
    LexInteger(1, broken);
    BrokenString(broken);
    OneIsInteger(cfg);
    var after := [Lexeme(ErrorToken, broken)];
    assert Lex(UNFINISHED + LISTING) == [Mark(LBRACE), NameLexeme(WRONG_NAME), Mark(COLON), ONE_LEXEME] + after;
    OneNameIn(cfg, UNFINISHED + LISTING, WRONG_NAME, ONE_LEXEME, after);
  }

  const ONE_LEXEME: Lexeme := Lexeme(NumberToken, [0x31])

  lemma OneIsInteger(cfg: Config)
    ensures IntText(1) == [0x31] && ScalarOf(cfg, Bare(ONE_LEXEME)).Denotes?
  {
    IntegerRoundTrip(1);
  }

  lemma BrokenString(t: Bytes)
    requires t == [QUOTE, COLON] + NULL_TEXT + [RBRACE]
    ensures Lex(t) == [Lexeme(ErrorToken, t)]
  {
    ScanInert(t, 1, |t| - 1);
    assert TokenAt(t, 0) == Shape(ErrorToken, |t|);
    assert t + [] == t;
    LexFront(t, ErrorToken, []);
    assert TokensFrom([], 0) == [];
  }

  /** How the HTTP library handles connections: which responses finish, and which attempts open a connection. */
  datatype Links = Links(finished: nat -> bool, connected: nat -> bool)

  ghost predicate Follows(server: Server, links: Links) {
    forall n, db, req ::
      server(n, db, req).finished == links.finished(n) && server(n, db, req).connected == links.connected(n)
  }

  /** Attempt `k` breaks off, attempt k + 1 brings the listing. */
  function Interrupted(links: Links, k: nat): Server {
    (n: nat, db: Db, req: Request) =>
      if n == k then Reply(true, false, 0, false, links.connected(n), [Data(UNFINISHED)], links.finished(n))
      else if n == k + 1 && req.verb == GET_OLDEST && req.target.Database?
          && db == map[Child(req.target.path, LISTED_NAME) := []] then
        Reply(true, true, 200, true, links.connected(n), [Data(LISTING)], links.finished(n))
      else Reply(true, true, 500, false, links.connected(n), [], links.finished(n))
  }

  lemma InterruptedIsSound(cfg: Config, links: Links, k: nat)
    ensures Sound(cfg, Interrupted(links, k)) && Follows(Interrupted(links, k), links)
  {
    hide Listed, KeyLess, PatchBody, MembersText;
    ListingNames(cfg);
    ListingText();
    var server := Interrupted(links, k);
    forall n: nat, db: Db, req: Request ensures SoundReply(cfg, db, req, server(n, db, req)) {
      var r := server(n, db, req);
      assert OnlyData(r.events);
      if IsListing(req, r) {
        OneListed(cfg, req.target.path);
        assert r.events[..0] == [];
        assert Body(r.events) == LISTING;
      }
    }
  }

  lemma OneListed(cfg: Config, root: Bytes)
    ensures ListsOldest(cfg, LISTING, map[Child(root, LISTED_NAME) := []], root)
  {
    hide Listed, PatchBody, KeyLess, Child;
    ListingNames(cfg);
    var names := Listed(cfg, LISTING);
    var db: Db := map[Child(root, LISTED_NAME) := []];
    forall y | Child(root, y) in db ensures y in names {
      ChildInjective(root, y, LISTED_NAME);
    }
  }

  lemma InterruptedText()
    ensures var both := Step(Step(EMPTY, Data(UNFINISHED)), Data(LISTING));
            CString(both.cells) == UNFINISHED + LISTING && CString(Step(both, Finish).cells) == UNFINISHED + LISTING
  {
    hide CString, PatchBody, MembersText, Step, Kept, Holds;
    ListingText();
    var all := UNFINISHED + LISTING;
    assert |all| == 14 && NUL !in all;
    var first := Step(EMPTY, Data(UNFINISHED));
    EmptyHolds(EMPTY);
    HoldsStep(EMPTY, [], UNFINISHED);
    assert [] + UNFINISHED == UNFINISHED;
    HoldsStep(first, UNFINISHED, LISTING);
    ShortIsKept(all);
    HeldText(Step(first, Data(LISTING)), all);
    FinishKeepsText(Step(first, Data(LISTING)));
  }

  lemma ShortIsKept(t: Bytes)
    requires |t| <= CAPACITY && NUL !in t
    ensures Kept(t) == t && CString(t) == t
  {
    assert t[..|t|] == t;
    CStringEnds(t, |t|);
  }

  lemma RunOne(b: Buffer, e: Event)
    requires b.Valid()
    ensures Run(b, [e]) == Step(b, e)
  {
    hide Step;
    var es := [e];
    assert es[..0] == [] && Run(b, es[..0]) == b;
  }

  /** The two attempts of the listing, the second of which is taken for the whole response. */
  lemma InterruptedGet(cfg: Config, links: Links, s: App, root: Bytes)
    requires s.Valid() && s.client == Listening && s.buffer == EMPTY
    requires !links.finished(s.clock) && !links.connected(s.clock + 1)
    requires s.db == map[Child(root, LISTED_NAME) := []]
    ensures var server := Interrupted(links, s.clock);
            var p := PerformRequest(cfg, server, s, Request(GET_OLDEST, Database(root), s.auth, []));
            p.ret == Ret(true, 200) && p.app.Text() == UNFINISHED + LISTING && p.app.client == Listening
  {
    hide CString, PatchBody, MembersText, Step, Run;
    var server, req := Interrupted(links, s.clock), Request(GET_OLDEST, Database(root), s.auth, []);
    var r0, r1 := server(s.clock, s.db, req), server(s.clock + 1, s.db, req);
    var s1 := Attempt(cfg, s, req, r0);
    var s2 := Attempt(cfg, s1, req, r1);
    assert s1.db == s.db && s1.clock == s.clock + 1 && s1.client == Listening;
    assert Perform(cfg, server, s1, req, 4, Ret(false, 0)) == Performed(s2, Ret(true, 200));
    assert Perform(cfg, server, s, req, 5, NO_REPLY) == Perform(cfg, server, s1, req, 4, Ret(false, 0));
    ConnectedIsEmpty(EMPTY);
    RunOne(EMPTY, Data(UNFINISHED));
    RunOne(s1.buffer, Data(LISTING));
    InterruptedText();
  }

  /** The PATCH that a trim of the oldest entries sends. */
  function PatchFor(s: App, root: Bytes, names: seq<Bytes>): Request {
    Request(PATCH, Database(root), s.auth, PatchBody(names))
  }

  /**
   * Wherever the library does not reconnect after an unfinished response, there is a sound
   * server that makes the device name an entry that is not stored: the unfinished {"z and the
   * listing {":1":null} are read as one text.
   */
  lemma UnfinishedMisleads(cfg: Config, links: Links, s: App, root: Bytes)
    requires s.Valid() && s.client == Listening && s.buffer == EMPTY
    requires !links.finished(s.clock) && !links.connected(s.clock + 1)
    requires s.db == map[Child(root, LISTED_NAME) := []]
    ensures var server := Interrupted(links, s.clock);
            && Sound(cfg, server) && Follows(server, links)
            && var t := TrimOldestBatch(cfg, server, s, root, 50);
            && Child(root, WRONG_NAME) !in s.db
            && exists i :: |s.sent| <= i < |t.app.sent| && t.app.sent[i] == PatchFor(s, root, [WRONG_NAME])
  {
    hide PerformRequest, NamesIn, PatchBody, CString, Sound, Follows;
    var server := Interrupted(links, s.clock);
    InterruptedIsSound(cfg, links, s.clock);
    if Child(root, WRONG_NAME) in s.db {
      ChildInjective(root, WRONG_NAME, LISTED_NAME);
    }
    InterruptedGet(cfg, links, s, root);
    RunTogether(cfg);
    var req := Request(GET_OLDEST, Database(root), s.auth, []);
    var got := PerformRequest(cfg, server, s, req).app;
    RequestSettles(cfg, server, s, req);
    SettledKeepsToken(cfg, server, s, req, PerformRequest(cfg, server, s, req));
    RequestSends(cfg, server, s, req);
    var patch := PatchFor(s, root, [WRONG_NAME]);
    RequestSends(cfg, server, Clear(got), patch);
    var t := TrimOldestBatch(cfg, server, s, root, 50);
    assert t.app.sent[|got.sent|] == patch;
  }

  // ---------------------------------------------------------------- reconnecting is exactly what is needed

  /** Every PATCH that the trim sends names stored entries. */
  ghost predicate NamesStored(cfg: Config, server: Server, s: App, root: Bytes)
    requires s.Valid()
  {
    var t := TrimOldestBatch(cfg, server, s, root, 50);
    forall i | |s.sent| <= i < |t.app.sent| && t.app.sent[i].verb == PATCH ::
      exists names :: t.app.sent[i] == PatchFor(s, root, names) && AreStored(s.db, root, names)
  }

  /** Whatever sound server the library talks to, from whatever state, trims name stored entries. */
  ghost predicate TrimsAreSafe(cfg: Config, links: Links) {
    forall server: Server, s: App, root: Bytes |
      Sound(cfg, server) && Follows(server, links) && s.Valid() && s.client == Listening && s.buffer == EMPTY ::
      NamesStored(cfg, server, s, root)
  }

  lemma ReconnectingIsSafe(cfg: Config, links: Links, server: Server, s: App, root: Bytes)
    requires forall n: nat :: links.finished(n) || links.connected(n + 1)
    requires Sound(cfg, server) && Follows(server, links) && s.Valid() && s.client == Listening && s.buffer == EMPTY
    ensures NamesStored(cfg, server, s, root)
  {
    hide TrimOldestBatch, Sound, AreStored, PatchBody;
    var names := TrimDeletesOldest(cfg, server, s, root, 50);
    var t := TrimOldestBatch(cfg, server, s, root, 50);
    PatchesOf(s, t.app.sent, root, names);
  }

  lemma PatchesOf(s: App, after: seq<Request>, root: Bytes, names: seq<Bytes>)
    requires TrimRequests(s.sent, after, root, s.auth, names)
    ensures forall i | |s.sent| <= i < |after| && after[i].verb == PATCH :: after[i] == PatchFor(s, root, names)
  {
    hide PatchBody;
    var n := |s.sent|;
    var k: nat :|
      && n <= k <= |after| && k <= n + 5 && |after| <= k + 5
      && after[..n] == s.sent
      && Sends(after[n..k], Request(GET_OLDEST, Database(root), s.auth, []))
      && Sends(after[k..], Request(PATCH, Database(root), s.auth, PatchBody(names)));
    forall i | n <= i < |after| ensures after[i].verb == PATCH ==> after[i] == PatchFor(s, root, names) {
      if i < k {
        assert after[i] == after[n..k][i - n];
      } else {
        assert after[i] == after[k..][i - k];
      }
    }
  }

  /** The wrong PATCH is not the PATCH of any stored names. */
  lemma WrongIsNotStored(cfg: Config, s: App, root: Bytes, names: seq<Bytes>)
    requires s.db == map[Child(root, LISTED_NAME) := []]
    requires PatchFor(s, root, [WRONG_NAME]) == PatchFor(s, root, names)
    ensures !AreStored(s.db, root, names)
  {
    hide PatchBody, Listed, Child, KeyLess;
    PatchNamesItsKeys(cfg, [WRONG_NAME]);
    if names == [LISTED_NAME] {
      PatchNamesItsKeys(cfg, [LISTED_NAME]);
    } else if names == [] {
      EmptyPatchIsShorter();
    } else {
      NotJustListed(s.db, root, names);
    }
  }

  lemma EmptyPatchIsShorter()
    ensures PatchBody([]) != PatchBody([WRONG_NAME])
  {
  }

  lemma NotJustListed(db: Db, root: Bytes, names: seq<Bytes>)
    requires db == map[Child(root, LISTED_NAME) := []]
    requires names != [] && names != [LISTED_NAME]
    ensures !AreStored(db, root, names)
  {
    hide Child, KeyLess;
    if AreStored(db, root, names) {
      ChildInjective(root, names[0], LISTED_NAME);
      if |names| >= 2 {
        ChildInjective(root, names[1], LISTED_NAME);
        KeyIrreflexive(LISTED_NAME);
      }
    }
  }

  /** Trims are safe with every sound server exactly when the library always reconnects after an unfinished response. */
  lemma ReconnectingIsExact(cfg: Config, links: Links)
    ensures TrimsAreSafe(cfg, links) <==> forall n: nat :: links.finished(n) || links.connected(n + 1)
  {
    hide NamesStored, Sound, Follows;
    if forall n: nat :: links.finished(n) || links.connected(n + 1) {
      forall server: Server, s: App, root: Bytes |
        Sound(cfg, server) && Follows(server, links) && s.Valid() && s.client == Listening && s.buffer == EMPTY
        ensures NamesStored(cfg, server, s, root)
      {
        ReconnectingIsSafe(cfg, links, server, s, root);
      }
    } else {
      var n: nat :| !links.finished(n) && !links.connected(n + 1);
      NotReconnectingIsUnsafe(cfg, links, n);
    }
  }

  lemma NotReconnectingIsUnsafe(cfg: Config, links: Links, n: nat)
    requires !links.finished(n) && !links.connected(n + 1)
    ensures !TrimsAreSafe(cfg, links)
  {
    hide TrimOldestBatch, Sound, Follows, AreStored, PatchFor, Child;
    var root: Bytes := [];
    var s := App(n, Listening, EMPTY, [], [], map[Child(root, LISTED_NAME) := []], [], []);
    var server := Interrupted(links, n);
    UnfinishedMisleads(cfg, links, s, root);
    var t := TrimOldestBatch(cfg, server, s, root, 50);
    var i :| |s.sent| <= i < |t.app.sent| && t.app.sent[i] == PatchFor(s, root, [WRONG_NAME]);
    WrongPatch(s, root);
    if NamesStored(cfg, server, s, root) {
      var names :| t.app.sent[i] == PatchFor(s, root, names) && AreStored(s.db, root, names);
      WrongIsNotStored(cfg, s, root, names);
    }
  }

  lemma WrongPatch(s: App, root: Bytes)
    ensures PatchFor(s, root, [WRONG_NAME]).verb == PATCH
  {
  }

  // ---------------------------------------------------------------- a long listing out of order

  const FIRST: Bytes := [LOWER_A]
  const SECOND: Bytes := [LOWER_B]

  function Blanks(n: nat): (r: Bytes)
    ensures |r| == n && AllSpaces(r) && NUL !in r
  {
    seq(n, _ => SPACE)
  }

  /** {"b":null, and so many blanks that "a":null} does not fit. */
  function LongListing(n: nat): Bytes {
    [LBRACE] + MemberText(SECOND) + [COMMA] + Blanks(n) + MembersText([FIRST])
  }

  lemma LexStart(post: Bytes)
    ensures Lex([LBRACE] + MemberText(SECOND) + [COMMA] + post)
         == [Mark(LBRACE), NameLexeme(SECOND), Mark(COLON), NULL_LEXEME, Mark(COMMA)] + Lex(post)
  {
    hide Lex, MemberText;
    var text := [LBRACE] + MemberText(SECOND) + [COMMA] + post;
    assert text == [LBRACE] + (MemberText(SECOND) + ([COMMA] + post));
    LexPunctuation(LBRACE, MemberText(SECOND) + ([COMMA] + post));
    LexMember(SECOND, [COMMA] + post);
    LexPunctuation(COMMA, post);
  }

  lemma LongListingNames(cfg: Config, n: nat)
    ensures Listed(cfg, LongListing(n)) == [SECOND, FIRST]
  {
    hide Lex, MemberText, MembersText, Listed;
    var keys: seq<Bytes> := [SECOND, FIRST];
    var rest := MembersText([FIRST]);
    assert LongListing(n) == [LBRACE] + MemberText(SECOND) + [COMMA] + (Blanks(n) + rest);
    LexStart(Blanks(n) + rest);
    LexSpaces(Blanks(n), rest);
    assert keys[1..] == [FIRST];
    MembersTextStep(keys, COMMA, rest);
    assert PatchBody(keys) == [LBRACE] + MemberText(SECOND) + [COMMA] + rest;
    LexStart(rest);
    SameLexSameNames(cfg, LongListing(n), PatchBody(keys));
    PatchNamesItsKeys(cfg, keys);
  }

  /** The names of a document that starts with a brace depend on its lexemes only. */
  lemma SameLexSameNames(cfg: Config, t: Bytes, u: Bytes)
    requires u == PatchBody([SECOND, FIRST]) && Lex(t) == Lex(u)
    ensures Listed(cfg, t) == Listed(cfg, u)
  {
    hide ReadMembers, MembersText, TokensFrom;
    var keys: seq<Bytes> := [SECOND, FIRST];
    LexPunctuation(LBRACE, MembersText(keys));
    var tail := Lex(MembersText(keys));
    forall x | x == t || x == u ensures Listed(cfg, x) == keys {
      var toks := TokensFrom(x, 0);
      LexIsLexemes(x);
      Next(toks, |x|, Mark(LBRACE), tail);
      SkipNothing(cfg, toks, Mark(LBRACE), tail);
      ReadNames(cfg, |x|, Tail(toks), [], [], keys);
      assert KeysOf<Node>([]) + keys == keys;
    }
  }

  const START: Bytes := [LBRACE] + MemberText(SECOND) + [COMMA]

  lemma StartShape()
    ensures |START| == 10 && NUL !in START
  {
    MemberTextParts(SECOND);
    assert MemberText(SECOND) == [QUOTE, LOWER_B, QUOTE, COLON, LOWER_N, LOWER_U, 0x6C, 0x6C];
  }

  lemma LongListingIsCut()
    ensures var body := LongListing(CAPACITY);
            CString(Kept(body)) == START + Blanks(CAPACITY - 10) && |body| > CAPACITY
  {
    hide CString, MembersText, MemberText;
    StartShape();
    var cut := START + Blanks(CAPACITY - 10);
    var rest := Blanks(10) + MembersText([FIRST]);
    assert Blanks(CAPACITY) == Blanks(CAPACITY - 10) + Blanks(10);
    SplitBlanks(START, Blanks(CAPACITY - 10), Blanks(10), MembersText([FIRST]));
    assert LongListing(CAPACITY) == cut + rest;
    assert (cut + rest)[..CAPACITY] == cut;
    ShortIsKept(cut);
  }

  lemma SplitBlanks<T>(a: seq<T>, b: seq<T>, c: seq<T>, d: seq<T>)
    ensures a + (b + c) + d == a + b + (c + d)
  {
  }

  lemma CutNames(cfg: Config, n: nat)
    ensures NamesIn(cfg, START + Blanks(n)) == [SECOND]
  {
    hide Lex, NamesIn, MemberText, ScalarOf;
    LexStart(Blanks(n));
    LexSpaces(Blanks(n), []);
    assert Blanks(n) + [] == Blanks(n);
    NothingToLex();
    NullIsScalar(cfg);
    var after := [Mark(COMMA)];
    assert Lex(START + Blanks(n)) == [Mark(LBRACE), NameLexeme(SECOND), Mark(COLON), NULL_LEXEME] + after;
    OneNameIn(cfg, START + Blanks(n), SECOND, NULL_LEXEME, after);
  }

  lemma NothingToLex()
    ensures Lex([]) == []
  {
    assert TokensFrom([], 0) == [];
  }

  function Both(root: Bytes): Db {
    map[Child(root, FIRST) := [], Child(root, SECOND) := []]
  }

  lemma BothAreListed(cfg: Config, body: Bytes, root: Bytes)
    requires Listed(cfg, body) == [SECOND, FIRST]
    ensures ListsOldest(cfg, body, Both(root), root)
  {
    hide Listed, KeyLess, Child;
    forall y | Child(root, y) in Both(root) ensures y in Listed(cfg, body) {
      if Child(root, y) == Child(root, FIRST) {
        ChildInjective(root, y, FIRST);
      } else {
        ChildInjective(root, y, SECOND);
      }
    }
  }

  /**
   * A long listing out of order: the sound text {"b":null, ... "a":null} is cut after b, and the
   * newer entry b is the one that is found.
   */
  lemma LongListingMisleads(cfg: Config, root: Bytes)
    ensures var body := LongListing(CAPACITY);
            && ListsOldest(cfg, body, Both(root), root)
            && !Fits(body) && !StrictlyAscending(Listed(cfg, body))
            && NamesIn(cfg, CString(Kept(body))) == [SECOND]
            && !AreOldest(Both(root), root, [SECOND])
  {
    hide Listed, CString, NamesIn, MembersText, MemberText, ListsOldest, Kept;
    var body := LongListing(CAPACITY);
    LongListingNames(cfg, CAPACITY);
    LongListingIsCut();
    StartShape();
    BothAreListed(cfg, body, root);
    CutNames(cfg, CAPACITY - 10);
    KeyLessStep(SECOND, FIRST);
    assert Child(root, FIRST) in Both(root) && FIRST !in [SECOND];
    var names := Listed(cfg, body);
    assert !KeyLess(names[0], names[1]);
  }
}
