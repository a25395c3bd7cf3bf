/**
 * trimOldestBatch deletes stored entries and nothing else, and the oldest ones, even when the
 * receive buffer cuts the listing off.
 */
module TrimTheorems {
  import opened Bytes
  import opened Values
  import opened ReaderSpec
  import opened Truncation
  import opened PatchBodies
  import opened ReceiveBuffers
  import opened Firebase
  import opened FirebaseTheorems

  // ---------------------------------------------------------------- the listing

  /**
   * `text` is what the buffer keeps of a listing of the oldest entries; if `ordered`, that is
   * all of it, or the listing has its names in key order.
   */
  ghost predicate CutListing(cfg: Config, text: Bytes, db: Db, root: Bytes, ordered: bool) {
    exists body: Bytes :: IsCutOf(cfg, text, body, db, root, ordered)
  }

  ghost predicate IsCutOf(cfg: Config, text: Bytes, body: Bytes, db: Db, root: Bytes, ordered: bool) {
    && text == CString(Kept(body))
    && ListsOldest(cfg, body, db, root)
    && (ordered ==> Fits(body) || StrictlyAscending(Listed(cfg, body)))
  }

  lemma NothingListed(cfg: Config, db: Db, root: Bytes, ordered: bool)
    ensures CutListing(cfg, [], db, root, ordered) && CString(EMPTY.cells) == []
  {
    assert Listed(cfg, []) == [];
    assert IsCutOf(cfg, [], [], db, root, ordered);
  }

  lemma AttemptReceives(cfg: Config, server: Server, s: App, req: Request, root: Bytes, ordered: bool)
    requires Ready(server, s) && Sound(cfg, server) && Reconnects(server)
    requires ordered ==> OrdersLongListings(cfg, server)
    requires req.verb == GET_OLDEST && req.target == Database(root)
    requires s.client != Missing || server(s.clock, s.db, req).clientReady
    ensures var r := server(s.clock, s.db, req);
            var s' := Attempt(cfg, s, req, r);
            && Ready(server, s') && s'.db == s.db
            && (r.ok && r.status == 200 ==> CutListing(cfg, s'.Text(), s.db, root, ordered))
  {
    hide ListsOldest, CString, Receive, Listed, StrictlyAscending, Fits;
    var r := server(s.clock, s.db, req);
    var s' := Attempt(cfg, s, req, r);
    AttemptHears(cfg, server, s, req);
    NothingListed(cfg, s.db, root, ordered);
    if r.ok && r.status == 200 && s.client == Listening {
      assert IsListing(req, r) && SoundReply(cfg, s.db, req, r);
      assert IsCutOf(cfg, s'.Text(), Body(r.events), s.db, root, ordered);
    }
  }

  lemma {:induction false} GetReceives(cfg: Config, server: Server, s: App, req: Request, root: Bytes,
                                       ordered: bool, n: nat, last: Ret)
    requires Ready(server, s) && Sound(cfg, server) && Reconnects(server) && last != Ret(true, 200)
    requires ordered ==> OrdersLongListings(cfg, server)
    requires req.verb == GET_OLDEST && req.target == Database(root)
    ensures var p := Perform(cfg, server, s, req, n, last);
            && p.app.db == s.db
            && (p.ret == Ret(true, 200) ==> CutListing(cfg, p.app.Text(), s.db, root, ordered))
    decreases n
  {
    hide Attempt, CutListing, CString, Sound, Reconnects, OrdersLongListings;
    if n > 0 {
      var r := server(s.clock, s.db, req);
      if s.client != Missing || r.clientReady {
        AttemptReceives(cfg, server, s, req, root, ordered);
        if !Success(r.ok, r.status) {
          GetReceives(cfg, server, Attempt(cfg, s, req, r), req, root, ordered, n - 1, Ret(r.ok, r.status));
        }
      }
    }
  }

  // ---------------------------------------------------------------- the names

  /** `names` are in order and stored below `root`. */
  ghost predicate AreStored(db: Db, root: Bytes, names: seq<Bytes>) {
    StrictlyAscending(names) && forall i | 0 <= i < |names| :: Child(root, names[i]) in db
  }

  /** Everything else that is stored below `root` is larger than all of `names`. */
  ghost predicate AreOldest(db: Db, root: Bytes, names: seq<Bytes>) {
    forall y, i | 0 <= i < |names| && Child(root, y) in db && y !in names :: KeyLess(names[i], y)
  }

  /** Whatever the order of the text and wherever it is cut, only stored names are found. */
  lemma CutNamesAreStored(cfg: Config, text: Bytes, db: Db, root: Bytes, ordered: bool)
    requires CutListing(cfg, text, db, root, ordered)
    ensures AreStored(db, root, NamesIn(cfg, text))
  {
    hide Parse, Listed, KeyLess, Child, CString, Kept;
    var names := NamesIn(cfg, text);
    if names != [] {
      var body: Bytes :| IsCutOf(cfg, text, body, db, root, ordered);
      CutIsListed(cfg, text, body);
      MemberNamesAreListed(cfg, text);
      forall i | 0 <= i < |names| ensures Child(root, names[i]) in db {
        assert names[i] in Listed(cfg, text);
        var k :| 0 <= k < |Listed(cfg, text)| && Listed(cfg, text)[k] == names[i];
        assert Listed(cfg, body)[k] == names[i];
      }
    }
  }

  lemma CutIsListed(cfg: Config, text: Bytes, body: Bytes)
    requires text == CString(Kept(body))
    ensures text <= body && Listed(cfg, text) <= Listed(cfg, body)
  {
    hide Listed, CString;
    PrefixTrans(text, Kept(body), body);
    assert body[..|text|] == text;
    CutIsPrefix(cfg, body, |text|);
  }

  /** What is listed but cut off is newer than what is found. */
  ghost predicate CutsNewest(found: seq<Bytes>, listed: seq<Bytes>) {
    forall i, j | 0 <= i < |found| && 0 <= j < |listed| && listed[j] !in found :: KeyLess(found[i], listed[j])
  }

  /**
   * Exactly when the names found in a cut listing are the oldest ones: when every listed name
   * that was cut off is newer than every name that was found.
   */
  lemma FoundAreOldestIff(cfg: Config, body: Bytes, db: Db, root: Bytes)
    requires ListsOldest(cfg, body, db, root)
    ensures var names := NamesIn(cfg, CString(Kept(body)));
            AreOldest(db, root, names) <==> CutsNewest(names, Listed(cfg, body))
  {
    hide Parse, Listed, KeyLess, Child, CString, Kept, CutsNewest, AreOldest;
    var text := CString(Kept(body));
    var names, whole := NamesIn(cfg, text), Listed(cfg, body);
    CutIsListed(cfg, text, body);
    if names != [] {
      MemberNamesAreListed(cfg, text);
      FoundAreListed(names, Listed(cfg, text), whole);
    }
    if CutsNewest(names, whole) {
      NewestCutIsOldest(cfg, body, db, root, names);
    }
    if AreOldest(db, root, names) {
      OldestCutsNewest(cfg, body, db, root, names);
    }
  }

  lemma FoundAreListed(names: seq<Bytes>, cut: seq<Bytes>, whole: seq<Bytes>)
    requires cut <= whole && forall x :: x in names <==> x in cut
    ensures forall i | 0 <= i < |names| :: names[i] in whole
  {
    forall i | 0 <= i < |names| ensures names[i] in whole {
      assert names[i] in cut;
      var k :| 0 <= k < |cut| && cut[k] == names[i];
      assert whole[k] == names[i];
    }
  }

  lemma NewestCutIsOldest(cfg: Config, body: Bytes, db: Db, root: Bytes, names: seq<Bytes>)
    requires ListsOldest(cfg, body, db, root) && CutsNewest(names, Listed(cfg, body))
    requires forall i | 0 <= i < |names| :: names[i] in Listed(cfg, body)
    ensures AreOldest(db, root, names)
  {
    hide Listed, KeyLess, Child;
    var whole := Listed(cfg, body);
    forall y, i | 0 <= i < |names| && Child(root, y) in db && y !in names ensures KeyLess(names[i], y) {
      var k :| 0 <= k < |whole| && whole[k] == names[i];
      KeyTrichotomy(names[i], y);
      if y in whole {
        var j :| 0 <= j < |whole| && whole[j] == y;
        assert whole[j] !in names;
      }
    }
  }

  lemma OldestCutsNewest(cfg: Config, body: Bytes, db: Db, root: Bytes, names: seq<Bytes>)
    requires ListsOldest(cfg, body, db, root) && AreOldest(db, root, names)
    ensures CutsNewest(names, Listed(cfg, body))
  {
    hide Listed, KeyLess, Child;
    var whole := Listed(cfg, body);
    forall i, j | 0 <= i < |names| && 0 <= j < |whole| && whole[j] !in names ensures KeyLess(names[i], whole[j]) {
      assert Child(root, whole[j]) in db;
    }
  }

  /** In particular if the listing fits the buffer, or has its names in key order. */
  lemma CutNamesAreOldest(cfg: Config, text: Bytes, db: Db, root: Bytes)
    requires CutListing(cfg, text, db, root, true)
    ensures AreOldest(db, root, NamesIn(cfg, text))
  {
    hide Parse, Listed, KeyLess, Child, CString, Kept, AreOldest, CutsNewest;
    var body: Bytes :| IsCutOf(cfg, text, body, db, root, true);
    FoundAreOldestIff(cfg, body, db, root);
    CutIsListed(cfg, text, body);
    if NamesIn(cfg, text) == [] {
      NothingCut(Listed(cfg, body));
    } else {
      MemberNamesAreListed(cfg, text);
      OrderCutsNewest(NamesIn(cfg, text), Listed(cfg, text), Listed(cfg, body));
    }
  }

  lemma NothingCut(listed: seq<Bytes>)
    ensures CutsNewest([], listed)
  {
  }

  lemma OrderCutsNewest(names: seq<Bytes>, cut: seq<Bytes>, whole: seq<Bytes>)
    requires cut <= whole && (forall x :: x in names <==> x in cut)
    requires cut == whole || StrictlyAscending(whole)
    ensures CutsNewest(names, whole)
  {
    hide KeyLess;
    forall i, j | 0 <= i < |names| && 0 <= j < |whole| && whole[j] !in names ensures KeyLess(names[i], whole[j]) {
      assert names[i] in cut && whole[j] !in cut;
      var k :| 0 <= k < |cut| && cut[k] == names[i];
      assert whole[k] == names[i];
      BeyondCut(cut, whole, whole[j], j);
    }
  }

  lemma BeyondCut(cut: seq<Bytes>, whole: seq<Bytes>, y: Bytes, j: nat)
    requires cut <= whole && y !in cut && j < |whole| && whole[j] == y
    ensures j >= |cut|
  {
  }

  function Children(root: Bytes, names: seq<Bytes>): set<Bytes> {
    set i | 0 <= i < |names| :: Child(root, names[i])
  }

  lemma ChildInjective(root: Bytes, a: Bytes, b: Bytes)
    requires Child(root, a) == Child(root, b)
    ensures a == b
  {
    var n := |root| + 1;
    assert Child(root, a)[n..] == a && Child(root, b)[n..] == b;
  }

  lemma {:induction false} CountChildren(root: Bytes, names: seq<Bytes>)
    requires forall i, j | 0 <= i < j < |names| :: names[i] != names[j]
    ensures |Children(root, names)| == |names|
    decreases |names|
  {
    hide Child;
    if names != [] {
      var n := |names| - 1;
      CountChildren(root, names[..n]);
      assert Children(root, names) == Children(root, names[..n]) + {Child(root, names[n])};
      if Child(root, names[n]) in Children(root, names[..n]) {
        var i :| 0 <= i < n && Child(root, names[..n][i]) == Child(root, names[n]);
        ChildInjective(root, names[i], names[n]);
        assert false;
      }
    } else {
      assert Children(root, names) == {};
    }
  }

  /** Names in strictly ascending order are distinct. */
  lemma AscendingDistinct(names: seq<Bytes>)
    requires forall i, j | 0 <= i < j < |names| :: KeyLess(names[i], names[j])
    ensures forall i, j | 0 <= i < j < |names| :: names[i] != names[j]
  {
    forall i, j | 0 <= i < j < |names| ensures names[i] != names[j] {
      KeyIrreflexive(names[i]);
    }
  }

  // ---------------------------------------------------------------- trimming

  /** No stored name below `root` contains a quote or a backslash. */
  ghost predicate PlainStored(db: Db, root: Bytes) {
    forall y | Child(root, y) in db :: PlainName(y)
  }

  lemma DeletedByPatch(cfg: Config, root: Bytes, names: seq<Bytes>)
    requires names != [] && PlainNames(names) && StrictlyAscending(names)
    ensures Deleted(cfg, root, PatchBody(names)) == Children(root, names)
  {
    hide Parse, PatchBody, Child, KeyLess, PlainName;
    PatchIsNullObject(cfg, names);
    var n := Parse(cfg, PatchBody(names), NULL_NODE).root;
    NullNodes(n, names);
    assert forall i | 0 <= i < |names| :: n.members[i].key == names[i] && IsNullNode(n.members[i].val);
  }

  lemma NullNodes(n: Node, names: seq<Bytes>)
    requires Strip(n) == Obj(NullMembers(names))
    ensures n.ObjNode? && |n.members| == |names|
    ensures forall i | 0 <= i < |names| :: n.members[i].key == names[i] && IsNullNode(n.members[i].val)
  {
    if n.ObjNode? {
      StripObj(n.members, n.start, n.limit);
      forall i | 0 <= i < |names| ensures n.members[i].key == names[i] && IsNullNode(n.members[i].val) {
        assert StripMembers(n.members)[i] == NullMembers(names)[i];
      }
    }
  }

  lemma AscendingNames(db: Db, root: Bytes, names: seq<Bytes>)
    requires AreStored(db, root, names)
    ensures StrictlyAscending(names)
  {
  }

  lemma StoredArePlain(db: Db, root: Bytes, names: seq<Bytes>)
    requires PlainStored(db, root) && AreStored(db, root, names)
    ensures PlainNames(names)
  {
    hide Child, KeyLess, PlainName;
  }

  /** The requests of a trim: the listing, then a PATCH that names `names`. */
  ghost predicate TrimRequests(before: seq<Request>, after: seq<Request>, root: Bytes, auth: Bytes, names: seq<Bytes>) {
    exists i: nat ::
      && |before| <= i <= |after| && i <= |before| + 5 && |after| <= i + 5
      && after[..|before|] == before
      && Sends(after[|before|..i], Request(GET_OLDEST, Database(root), auth, []))
      && Sends(after[i..], Request(PATCH, Database(root), auth, PatchBody(names)))
  }

  lemma TrimPhases(a: seq<Request>, b: seq<Request>, c: seq<Request>, root: Bytes, auth: Bytes, names: seq<Bytes>)
    requires Repeats(a, b, Request(GET_OLDEST, Database(root), auth, []), 5)
    requires Repeats(b, c, Request(PATCH, Database(root), auth, PatchBody(names)), 5)
    ensures TrimRequests(a, c, root, auth, names)
  {
    hide PatchBody;
    assert c[..|a|] == c[..|b|][..|a|];
    assert c[|a|..|b|] == b[|a|..] by {
      assert c[|a|..|b|] == c[..|b|][|a|..|b|];
    }
    assert Sends(c[|a|..|b|], Request(GET_OLDEST, Database(root), auth, []));
    assert Sends(c[|b|..], Request(PATCH, Database(root), auth, PatchBody(names)));
  }

  /** What a trim may do, `names` being the names it found. */
  ghost predicate TrimSettled(s: App, t: Trimmed, root: Bytes, names: seq<Bytes>) {
    && AreStored(s.db, root, names)
    && TrimRequests(s.sent, t.app.sent, root, s.auth, names)
    && t.app.auth == s.auth && t.app.refresh == s.refresh
    && (t.count == |names| || t.count == 0 || t.count == -1 || t.count == -2)
    && (PlainStored(s.db, root) ==>
          && (t.app.db == s.db || t.app.db == s.db - Children(root, names))
          && (t.count > 0 ==> t.count == |names| && t.app.db == s.db - Children(root, names))
          && ((t.count == 0 || t.count == -1) ==> t.app.db == s.db))
  }

  lemma NothingSent(before: seq<Request>, after: seq<Request>, root: Bytes, auth: Bytes, names: seq<Bytes>)
    requires Repeats(before, after, Request(GET_OLDEST, Database(root), auth, []), 5)
    ensures TrimRequests(before, after, root, auth, names)
  {
    hide PatchBody;
    var n := |after|;
    assert after[n..] == [];
    assert Sends(after[|before|..n], Request(GET_OLDEST, Database(root), auth, []));
    assert Sends(after[n..], Request(PATCH, Database(root), auth, PatchBody(names)));
  }

  lemma NoNames(db: Db, root: Bytes)
    ensures AreStored(db, root, []) && AreOldest(db, root, []) && Children(root, []) == {}
  {
  }

  /** The second half of a trim. */
  lemma PatchSettles(cfg: Config, server: Server, s: App, root: Bytes, names: seq<Bytes>)
    requires s.Valid() && Sound(cfg, server)
    requires names != [] && AreStored(s.db, root, names)
    ensures var req := Request(PATCH, Database(root), s.auth, PatchBody(names));
            var p := PerformRequest(cfg, server, s, req);
            && Repeats(s.sent, p.app.sent, req, 5) && p.app.auth == s.auth && p.app.refresh == s.refresh
            && (PlainStored(s.db, root) ==>
                  && (p.app.db == s.db || p.app.db == s.db - Children(root, names))
                  && (Success(p.ret.ok, p.ret.status) ==> p.app.db == s.db - Children(root, names)))
  {
    hide PerformRequest, PatchBody, Children, Deleted, AreStored, Sound, PlainStored;
    var req := Request(PATCH, Database(root), s.auth, PatchBody(names));
    RequestSettles(cfg, server, s, req);
    if PlainStored(s.db, root) {
      StoredArePlain(s.db, root, names);
      AscendingNames(s.db, root, names);
      DeletedByPatch(cfg, root, names);
    }
  }

  lemma GetSettles(cfg: Config, server: Server, s: App, root: Bytes, ordered: bool)
    requires Ready(server, s) && Sound(cfg, server) && Reconnects(server)
    requires ordered ==> OrdersLongListings(cfg, server)
    ensures var req := Request(GET_OLDEST, Database(root), s.auth, []);
            var p := PerformRequest(cfg, server, s, req);
            && Repeats(s.sent, p.app.sent, req, 5) && p.app.auth == s.auth && p.app.refresh == s.refresh
            && p.app.db == s.db
            && (p.ret == Ret(true, 200) ==> CutListing(cfg, p.app.Text(), s.db, root, ordered))
  {
    hide Repeats, Perform, CutListing, Sound, Reconnects, OrdersLongListings, CString;
    var req := Request(GET_OLDEST, Database(root), s.auth, []);
    RequestSettles(cfg, server, s, req);
    GetReceives(cfg, server, s, req, root, ordered, MAX_ATTEMPTS, NO_REPLY);
  }

  /**
   * trimOldestBatch names only stored entries, even when the listing was cut off by the
   * receive buffer, and the oldest ones if listings that do not fit are in key order. If the
   * stored names have no quote or backslash, a positive result is the exact number of entries
   * that are gone; a negative result may leave them or not.
   */
  lemma TrimDeletesOldest(cfg: Config, server: Server, s: App, root: Bytes, batchSize: int) returns (names: seq<Bytes>)
    requires Ready(server, s) && Sound(cfg, server) && Reconnects(server)
    ensures TrimSettled(s, TrimOldestBatch(cfg, server, s, root, batchSize), root, names)
    ensures OrdersLongListings(cfg, server) ==> AreOldest(s.db, root, names)
    ensures |Children(root, names)| == |names|
    ensures forall x | x in Children(root, names) :: x in s.db
    ensures batchSize > 0 ==> TrimOldestBatch(cfg, server, s, root, batchSize).app.buffer == EMPTY
  {
    hide PerformRequest, PatchBody, NamesIn, CutListing, AreStored, AreOldest, Repeats, Sound, Reconnects,
      OrdersLongListings, TrimRequests, PlainStored, Child, CString;
    names := [];
    NoNames(s.db, root);
    if batchSize > 0 {
      var ordered := OrdersLongListings(cfg, server);
      var req := Request(GET_OLDEST, Database(root), s.auth, []);
      var got := PerformRequest(cfg, server, s, req);
      GetSettles(cfg, server, s, root, ordered);
      NothingSent(s.sent, got.app.sent, root, s.auth, []);
      if got.ret == Ret(true, 200) {
        names := NamesIn(cfg, got.app.Text());
        CutNamesAreStored(cfg, got.app.Text(), s.db, root, ordered);
        if ordered {
          CutNamesAreOldest(cfg, got.app.Text(), s.db, root);
        }
        if names != [] {
          var cleared := Clear(got.app);
          PatchSettles(cfg, server, cleared, root, names);
          var put := PerformRequest(cfg, server, cleared,
                                    Request(PATCH, Database(root), cleared.auth, PatchBody(names)));
          TrimPhases(s.sent, got.app.sent, put.app.sent, root, s.auth, names);
        }
      }
    } else {
      RepeatsNone(s.sent, Request(GET_OLDEST, Database(root), s.auth, []), 5);
      NothingSent(s.sent, s.sent, root, s.auth, []);
    }
    StoredFacts(s.db, root, names);
  }

  lemma StoredFacts(db: Db, root: Bytes, names: seq<Bytes>)
    requires AreStored(db, root, names)
    ensures |Children(root, names)| == |names|
    ensures forall x | x in Children(root, names) :: x in db
  {
    hide KeyLess, Child;
    AscendingDistinct(names);
    CountChildren(root, names);
  }
}
