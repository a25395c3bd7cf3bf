/**
 * What the client puts on the wire, stated about the log of requests and replies alone: how a
 * request is retried, when a token is refreshed and by which requests, when a write is
 * repeated, and when a trim sends its PATCH.
 */
module Protocols {
  import opened Bytes
  import opened ReaderSpec
  import opened PatchBodies
  import opened ReceiveBuffers
  import opened Firebase
  import opened FirebaseTheorems

  // ---------------------------------------------------------------- one request

  predicate Is2xx(r: Reply) {
    r.ok && 200 <= r.status <= 299
  }

  /** The result that a reply gives. */
  function ResultOf(r: Reply): Ret {
    Ret(r.ok, r.status)
  }

  /**
   * The log of `b` is that of `a` and then one request in one to `tries` attempts: every attempt
   * but the last was answered by no 2xx, the loop ended at the first 2xx or after the last
   * attempt allowed, and `ret` is the result of the last.
   */
  ghost predicate TriedUpTo(a: App, b: App, req: Request, ret: Ret, tries: nat) {
    && a.Valid() && b.Valid() && Continues(a, b)
    && var m, n := |a.sent|, |b.sent|;
    && m < n <= m + tries
    && (forall i | m <= i < n :: b.sent[i] == req)
    && (forall i | m <= i < n - 1 :: !Is2xx(b.replies[i]))
    && (n == m + tries || Is2xx(b.replies[n - 1]))
    && ret == ResultOf(b.replies[n - 1])
  }

  /** The loop makes at most five attempts. */
  ghost predicate Tried(a: App, b: App, req: Request, ret: Ret) {
    TriedUpTo(a, b, req, ret, 5)
  }

  /** The client exists, or can be made for the next attempt. */
  predicate CanSend(server: Server, s: App, req: Request) {
    s.client != Missing || server(s.clock, s.db, req).clientReady
  }

  /** One attempt: its entry in the log, and how the loop goes on. */
  lemma OneAttempt(cfg: Config, server: Server, s: App, req: Request, n: nat, last: Ret)
    requires s.Valid() && CanSend(server, s, req) && 1 <= n
    ensures var r := server(s.clock, s.db, req);
            var s' := Attempt(cfg, s, req, r);
            && s'.client != Missing && s'.sent == s.sent + [req] && s'.replies == s.replies + [r]
            && Perform(cfg, server, s, req, n, last) ==
               if Is2xx(r) || n == 1 then Performed(s', ResultOf(r))
               else Perform(cfg, server, s', req, n - 1, ResultOf(r))
  {
    hide Apply, Receive;
  }

  lemma TriedOnce(a: App, b: App, req: Request, r: Reply, tries: nat)
    requires a.Valid() && b.Valid() && b.sent == a.sent + [req] && b.replies == a.replies + [r] && tries >= 1
    requires Is2xx(r) || tries == 1
    ensures TriedUpTo(a, b, req, ResultOf(r), tries)
  {
  }

  lemma TriedMore(a: App, mid: App, b: App, req: Request, r: Reply, ret: Ret, tries: nat)
    requires a.Valid() && mid.sent == a.sent + [req] && mid.replies == a.replies + [r] && !Is2xx(r)
    requires TriedUpTo(mid, b, req, ret, tries)
    ensures TriedUpTo(a, b, req, ret, tries + 1)
  {
    assert mid.sent[|a.sent|] == req && mid.replies[|a.sent|] == r;
    assert b.sent[|a.sent|] == mid.sent[|a.sent|] && b.replies[|a.sent|] == mid.replies[|a.sent|];
  }

  lemma {:induction false} PerformTries(cfg: Config, server: Server, s: App, req: Request, n: nat, last: Ret)
    requires s.Valid() && CanSend(server, s, req) && 1 <= n <= 5
    ensures var p := Perform(cfg, server, s, req, n, last);
            TriedUpTo(s, p.app, req, p.ret, n) && p.app.client != Missing
    decreases n
  {
    hide Perform, Attempt, TriedUpTo;
    OneAttempt(cfg, server, s, req, n, last);
    var r := server(s.clock, s.db, req);
    var s' := Attempt(cfg, s, req, r);
    if Is2xx(r) || n == 1 {
      TriedOnce(s, s', req, r, n);
    } else {
      PerformTries(cfg, server, s', req, n - 1, ResultOf(r));
      var p := Perform(cfg, server, s', req, n - 1, ResultOf(r));
      TriedMore(s, s', p.app, req, r, p.ret, n - 1);
    }
  }

  /** Every request, whatever the server does. */
  lemma RequestIsTried(cfg: Config, server: Server, s: App, req: Request)
    requires s.Valid() && CanSend(server, s, req)
    ensures var p := PerformRequest(cfg, server, s, req); Tried(s, p.app, req, p.ret) && p.app.client != Missing
  {
    hide Perform, TriedUpTo;
    PerformTries(cfg, server, s, req, 5, NO_REPLY);
  }

  /** A client that cannot be made sends nothing, and the request fails without a status. */
  lemma NothingIsSent(cfg: Config, server: Server, s: App, req: Request)
    requires s.Valid() && !CanSend(server, s, req)
    ensures var p := PerformRequest(cfg, server, s, req);
            p.app.sent == s.sent && p.app.replies == s.replies && p.app.db == s.db && p.ret == Ret(false, -1)
  {
  }

  /**
   * A request that does not succeed was sent exactly five times; it succeeds exactly when some
   * attempt was answered by a 2xx, which is then the last.
   */
  lemma FiveAttemptsOrSuccess(cfg: Config, server: Server, s: App, req: Request)
    requires s.Valid() && CanSend(server, s, req)
    ensures var p := PerformRequest(cfg, server, s, req);
            var k, m := |s.sent|, |p.app.sent|;
            var success := p.ret.ok && 200 <= p.ret.status <= 299;
            && (!success ==> m == k + 5)
            && (success <==> exists i :: k <= i < m && Is2xx(p.app.replies[i]))
            && (forall i | k <= i < m && Is2xx(p.app.replies[i]) :: i == m - 1)
  {
    hide PerformRequest;
    RequestIsTried(cfg, server, s, req);
  }

  // ---------------------------------------------------------------- refreshing the token

  function TokenRequest(refresh: Bytes): Request {
    Request(POST, TokenService, [], refresh)
  }

  const LOGIN_REQUEST: Request := Request(POST, LoginService, [], [])

  /** The logs of two states are the same. */
  predicate SameLogs(a: App, b: App) {
    a.sent == b.sent && a.replies == b.replies
  }

  const OK200: Ret := Ret(true, 200)

  /**
   * One token request with the refresh token of `a`; the access token is replaced exactly when
   * it is answered 200, and then by the one in the text that is in the buffer.
   */
  ghost predicate AsksToken(f: Fields, a: App, b: App, ok: bool) {
    exists ret ::
      && Tried(a, b, TokenRequest(a.refresh), ret) && ok == (ret == OK200)
      && b.refresh == a.refresh && b.auth == if ok then f.access(b.Text()) else a.auth
  }

  /** The same for the login and the refresh token. */
  ghost predicate LogsIn(f: Fields, a: App, b: App, ok: bool) {
    exists ret ::
      && Tried(a, b, LOGIN_REQUEST, ret) && ok == (ret == OK200)
      && b.auth == a.auth && b.refresh == if ok then f.refresh(b.Text()) else a.refresh
  }

  lemma AuthAsksToken(cfg: Config, server: Server, f: Fields, s: App)
    requires s.Valid() && s.client != Missing
    ensures var o := GetAuthToken(cfg, server, f, s); AsksToken(f, s, o.app, o.ok) && o.app.client != Missing
  {
    hide PerformRequest, CString;
    var req := TokenRequest(s.refresh);
    RequestIsTried(cfg, server, s, req);
    var p := PerformRequest(cfg, server, s, req);
    TokensStay(cfg, server, s, req);
    var o := GetAuthToken(cfg, server, f, s);
    assert Tried(s, o.app, req, p.ret);
  }

  lemma TokensStay(cfg: Config, server: Server, s: App, req: Request)
    requires s.Valid()
    ensures var p := PerformRequest(cfg, server, s, req); p.app.auth == s.auth && p.app.refresh == s.refresh
  {
    hide Apply;
    RequestSettles(cfg, server, s, req);
  }

  lemma RefreshLogsIn(cfg: Config, server: Server, f: Fields, s: App)
    requires s.Valid() && s.client != Missing
    ensures var o := GetRefreshToken(cfg, server, f, s); LogsIn(f, s, o.app, o.ok) && o.app.client != Missing
  {
    hide PerformRequest, CString;
    RequestIsTried(cfg, server, s, LOGIN_REQUEST);
    var p := PerformRequest(cfg, server, s, LOGIN_REQUEST);
    TokensStay(cfg, server, s, LOGIN_REQUEST);
    var o := GetRefreshToken(cfg, server, f, s);
    assert Tried(s, o.app, LOGIN_REQUEST, p.ret);
  }

  /** The buffer is cleared; nothing else changes. */
  predicate Cleared(a: App, b: App) {
    a.Valid() && b == a.(buffer := EMPTY)
  }

  /**
   * A full login: the login request, and exactly if it was answered 200 a token request with
   * the refresh token that it brought.
   */
  ghost predicate LoginRuns(f: Fields, a: App, b: App, ok: bool) {
    exists x: App, first: bool ::
      && LogsIn(f, a, x, first)
      && if !first then b == x && !ok
         else exists y: App, z: App ::
           && Cleared(x, y) && AsksToken(f, y, z, ok)
           && if ok then Cleared(z, b) else b == z
  }

  /** A refresh: a token request, and exactly if it was not answered 200 a full login. */
  ghost predicate RefreshRuns(f: Fields, a: App, b: App, ok: bool) {
    exists x: App, direct: bool ::
      && AsksToken(f, a, x, direct)
      && if direct then Cleared(x, b) && ok else LoginRuns(f, x, b, ok)
  }

  lemma LoginFollows(cfg: Config, server: Server, f: Fields, s: App)
    requires s.Valid() && s.client != Missing
    ensures var o := Login(cfg, server, f, s); LoginRuns(f, s, o.app, o.ok) && o.app.client != Missing
  {
    hide GetRefreshToken, GetAuthToken, LogsIn, AsksToken;
    RefreshLogsIn(cfg, server, f, s);
    var x := GetRefreshToken(cfg, server, f, s);
    if x.ok {
      var y := Clear(x.app);
      AuthAsksToken(cfg, server, f, y);
      var z := GetAuthToken(cfg, server, f, y);
      assert Cleared(x.app, y) && AsksToken(f, y, z.app, z.ok);
      assert z.ok ==> Cleared(z.app, Clear(z.app));
    }
  }

  /** The requests of a refresh, whatever the server does. */
  lemma RefreshFollows(cfg: Config, server: Server, f: Fields, s: App)
    requires s.Valid() && s.client != Missing
    ensures var o := ForceRefreshAuth(cfg, server, f, s); RefreshRuns(f, s, o.app, o.ok) && o.app.client != Missing
  {
    hide GetAuthToken, Login, AsksToken, LoginRuns;
    AuthAsksToken(cfg, server, f, s);
    var x := GetAuthToken(cfg, server, f, s);
    if !x.ok {
      LoginFollows(cfg, server, f, x.app);
    }
  }

  // ---------------------------------------------------------------- writing

  /**
   * A write: the request with the current token, and exactly if its last answer was 401 a
   * refresh and the request again with the token then current.
   */
  ghost predicate WriteRuns(f: Fields, a: App, b: App, verb: Verb, path: Bytes, body: Bytes, ret: Ret) {
    exists x: App, first: Ret ::
      && Tried(a, x, Request(verb, Database(path), a.auth, body), first)
      && x.auth == a.auth && x.refresh == a.refresh
      && if first.status != 401 then b == x && ret == first
         else exists y: App, ok: bool ::
           && RefreshRuns(f, x, y, ok)
           && Tried(y, b, Request(verb, Database(path), y.auth, body), ret)
           && b.auth == y.auth && b.refresh == y.refresh
  }

  lemma WriteFollows(cfg: Config, server: Server, f: Fields, s: App, verb: Verb, path: Bytes, body: Bytes)
    requires s.Valid() && CanSend(server, s, Request(verb, Database(path), s.auth, body))
    ensures var p := WithRefresh(cfg, server, f, s, verb, path, body);
            WriteRuns(f, s, p.app, verb, path, body, p.ret) && p.app.client != Missing
  {
    hide PerformRequest, ForceRefreshAuth, RefreshRuns, Tried;
    var req := Request(verb, Database(path), s.auth, body);
    RequestIsTried(cfg, server, s, req);
    TokensStay(cfg, server, s, req);
    var x := PerformRequest(cfg, server, s, req);
    if x.ret.status == 401 {
      RefreshFollows(cfg, server, f, x.app);
      var y := ForceRefreshAuth(cfg, server, f, x.app);
      var again := Request(verb, Database(path), y.app.auth, body);
      RequestIsTried(cfg, server, y.app, again);
      TokensStay(cfg, server, y.app, again);
    }
  }

  /** The requests of a PUT and its result: OK exactly when the last one was answered 200. */
  lemma PutFollows(cfg: Config, server: Server, f: Fields, s: App, path: Bytes, json: Bytes)
    requires s.Valid() && CanSend(server, s, Request(PUT, Database(path), s.auth, json))
    ensures var o := PutData(cfg, server, f, s, path, json);
            exists b: App, ret: Ret ::
              WriteRuns(f, s, b, PUT, path, json, ret) && Cleared(b, o.app) && o.ok == (ret == OK200)
  {
    hide WithRefresh, WriteRuns;
    WriteFollows(cfg, server, f, s, PUT, path, json);
    var p := WithRefresh(cfg, server, f, s, PUT, path, json);
    assert Cleared(p.app, Clear(p.app));
  }

  /** The requests of a DELETE and its result: OK exactly when the last one was answered by a 2xx. */
  lemma DeleteFollows(cfg: Config, server: Server, f: Fields, s: App, path: Bytes)
    requires s.Valid() && CanSend(server, s, Request(DELETE, Database(path), s.auth, []))
    ensures var o := DeleteData(cfg, server, f, s, path);
            exists b: App, ret: Ret ::
              && WriteRuns(f, s, b, DELETE, path, [], ret) && Cleared(b, o.app)
              && o.ok == (ret.ok && 200 <= ret.status <= 299)
  {
    hide WithRefresh, WriteRuns;
    WriteFollows(cfg, server, f, s, DELETE, path, []);
    var p := WithRefresh(cfg, server, f, s, DELETE, path, []);
    assert Cleared(p.app, Clear(p.app));
  }

  // ---------------------------------------------------------------- trimming

  /**
   * A trim: the listing; exactly if it was answered 200 and names were found in its text, one
   * PATCH with all of them. The result is the number of names if the PATCH succeeded, -2 if it
   * did not, 0 if there was nothing to delete and -1 if the listing failed.
   */
  ghost predicate TrimRuns(cfg: Config, a: App, b: App, root: Bytes, count: int) {
    exists x: App, got: Ret ::
      && Tried(a, x, Request(GET_OLDEST, Database(root), a.auth, []), got)
      && var names := NamesIn(cfg, x.Text());
      if got != OK200 then Cleared(x, b) && count == -1
      else if names == [] then Cleared(x, b) && count == 0
      else exists y: App, z: App, put: Ret ::
        && Cleared(x, y) && Tried(y, z, Request(PATCH, Database(root), a.auth, PatchBody(names)), put) && Cleared(z, b)
        && count == if put.ok && 200 <= put.status <= 299 then |names| else -2
  }

  lemma TrimFollows(cfg: Config, server: Server, s: App, root: Bytes, batchSize: int)
    requires s.Valid() && CanSend(server, s, Request(GET_OLDEST, Database(root), s.auth, []))
    ensures var t := TrimOldestBatch(cfg, server, s, root, batchSize);
            if batchSize <= 0 then t == Trimmed(s, 0) else TrimRuns(cfg, s, t.app, root, t.count)
  {
    hide PerformRequest, NamesIn, PatchBody, Tried, CString;
    if batchSize > 0 {
      var get := Request(GET_OLDEST, Database(root), s.auth, []);
      RequestIsTried(cfg, server, s, get);
      TokensStay(cfg, server, s, get);
      var x := PerformRequest(cfg, server, s, get);
      var names := NamesIn(cfg, x.app.Text());
      var y := Clear(x.app);
      assert Cleared(x.app, y);
      if x.ret == OK200 && names != [] {
        var patch := Request(PATCH, Database(root), y.auth, PatchBody(names));
        RequestIsTried(cfg, server, y, patch);
        var z := PerformRequest(cfg, server, y, patch);
        assert Cleared(z.app, Clear(z.app));
      }
    }
  }

  /** A trim that finds names always asks to delete all of them. */
  lemma TrimSendsItsPatch(cfg: Config, server: Server, s: App, root: Bytes, batchSize: int)
    requires s.Valid() && s.client != Missing && batchSize > 0
    requires var got := PerformRequest(cfg, server, s, Request(GET_OLDEST, Database(root), s.auth, []));
             got.ret == Ret(true, 200) && NamesIn(cfg, got.app.Text()) != []
    ensures var got := PerformRequest(cfg, server, s, Request(GET_OLDEST, Database(root), s.auth, [])).app;
            var names := NamesIn(cfg, got.Text());
            var t := TrimOldestBatch(cfg, server, s, root, batchSize);
            var n := |t.app.sent|;
            var patch := Request(PATCH, Database(root), s.auth, PatchBody(names));
            && |got.sent| < n <= |got.sent| + 5
            && (forall i | |got.sent| <= i < n :: t.app.sent[i] == patch)
            && t.count == if Is2xx(t.app.replies[n - 1]) then |names| else -2
  {
    hide PerformRequest, NamesIn, PatchBody, CString;
    var get := Request(GET_OLDEST, Database(root), s.auth, []);
    RequestIsTried(cfg, server, s, get);
    TokensStay(cfg, server, s, get);
    var got := PerformRequest(cfg, server, s, get).app;
    var patch := Request(PATCH, Database(root), s.auth, PatchBody(NamesIn(cfg, got.Text())));
    RequestIsTried(cfg, server, Clear(got), patch);
  }

  /** Trimming by day when there is no limit, or no listing: nothing is deleted. */
  lemma TrimDaysOtherwise(cfg: Config, server: Server, f: Fields, s: App, root: Bytes, maxDays: int)
    requires s.Valid()
    ensures var o := TrimDays(cfg, server, f, s, root, maxDays);
            var got := PerformRequest(cfg, server, s, Request(GET_SHALLOW, Database(root), s.auth, []));
            && (maxDays <= 0 ==> o == Outcome(s, true))
            && (maxDays > 0 && got.ret != Ret(true, 200) ==> !o.ok && Cleared(got.app, o.app))
            && (maxDays > 0 && got.ret == Ret(true, 200) ==> o.ok)
  {
    hide PerformRequest, NamesIn, CString, SortNames, DeleteDays;
  }
}
