/**
 * What the client guarantees whatever the server does: a request is carried out entirely or
 * not at all, exactly when one of its attempts was, and a refresh takes its token from the
 * response that brought it.
 */
module FirebaseTheorems {
  import opened Bytes
  import opened ReaderSpec
  import opened ReceiveBuffers
  import opened Firebase

  // ---------------------------------------------------------------- one request with retries

  lemma ApplyTwice(cfg: Config, db: Db, req: Request)
    ensures Apply(cfg, Apply(cfg, db, req), req) == Apply(cfg, db, req)
  {
    hide Deleted, Below;
  }

  /** `sent` grew by at most `n` copies of `req`. */
  ghost predicate Repeats(before: seq<Request>, after: seq<Request>, req: Request, n: nat) {
    && |before| <= |after| <= |before| + n
    && after[..|before|] == before
    && forall i | |before| <= i < |after| :: after[i] == req
  }

  lemma RepeatsStep(before: seq<Request>, middle: seq<Request>, after: seq<Request>, req: Request, n: nat)
    requires middle == before + [req] && Repeats(middle, after, req, n)
    ensures Repeats(before, after, req, n + 1)
  {
    assert after[..|before|] == after[..|middle|][..|before|];
  }

  /** What any number of attempts may do. */
  ghost predicate Settled(cfg: Config, server: Server, s: App, req: Request, n: nat, p: Performed) {
    && Repeats(s.sent, p.app.sent, req, n)
    && p.app.auth == s.auth && p.app.refresh == s.refresh
    && (p.app.db == s.db || p.app.db == Apply(cfg, s.db, req))
    && (Sound(cfg, server) && Success(p.ret.ok, p.ret.status) ==> p.app.db == Apply(cfg, s.db, req))
  }

  lemma {:induction false} PerformSettles(cfg: Config, server: Server, s: App, req: Request, n: nat, last: Ret)
    requires s.Valid() && !Success(last.ok, last.status)
    ensures Settled(cfg, server, s, req, n, Perform(cfg, server, s, req, n, last))
    decreases n
  {
    hide Apply, Attempt, Repeats;
    RepeatsNone(s.sent, req, n);
    if n > 0 {
      var r := server(s.clock, s.db, req);
      assert Sound(cfg, server) ==> SoundReply(cfg, s.db, req, r);
      var s' := Attempt(cfg, s, req, r);
      AttemptFacts(cfg, s, req, r);
      if !(s.client == Missing && !r.clientReady) {
        RepeatsNone(s'.sent, req, n - 1);
        if Success(r.ok, r.status) {
          RepeatsStep(s.sent, s'.sent, s'.sent, req, n - 1);
        } else {
          PerformSettles(cfg, server, s', req, n - 1, Ret(r.ok, r.status));
          var p := Perform(cfg, server, s', req, n - 1, Ret(r.ok, r.status));
          RepeatsStep(s.sent, s'.sent, p.app.sent, req, n - 1);
          ApplyTwice(cfg, s.db, req);
        }
      }
    }
  }

  lemma RepeatsNone(before: seq<Request>, req: Request, n: nat)
    ensures Repeats(before, before, req, n)
  {
  }

  lemma AttemptFacts(cfg: Config, s: App, req: Request, r: Reply)
    requires s.Valid()
    ensures var s' := Attempt(cfg, s, req, r);
            && s'.sent == s.sent + [req] && s'.replies == s.replies + [r]
            && s'.auth == s.auth && s'.refresh == s.refresh
            && s'.db == if r.applied then Apply(cfg, s.db, req) else s.db
  {
  }

  lemma RequestSettles(cfg: Config, server: Server, s: App, req: Request)
    requires s.Valid()
    ensures Settled(cfg, server, s, req, MAX_ATTEMPTS, PerformRequest(cfg, server, s, req))
  {
    PerformSettles(cfg, server, s, req, MAX_ATTEMPTS, NO_REPLY);
  }

  // ---------------------------------------------------------------- refreshing the token

  /** Only the services were asked, with at most `n` requests; the database is as before. */
  ghost predicate Aside(s: App, s': App, n: nat) {
    && s'.db == s.db
    && |s.sent| <= |s'.sent| <= |s.sent| + n
    && s'.sent[..|s.sent|] == s.sent
    && forall i | |s.sent| <= i < |s'.sent| :: !s'.sent[i].target.Database?
  }

  lemma AsideTrans(a: App, b: App, c: App, m: nat, n: nat)
    requires Aside(a, b, m) && Aside(b, c, n)
    ensures Aside(a, c, m + n)
  {
    assert c.sent[..|a.sent|] == c.sent[..|b.sent|][..|a.sent|];
    forall i | |a.sent| <= i < |c.sent| ensures !c.sent[i].target.Database? {
      if i < |b.sent| {
        assert c.sent[i] == c.sent[..|b.sent|][i] == b.sent[i];
      }
    }
  }

  lemma ServiceIsAside(cfg: Config, server: Server, s: App, req: Request)
    requires s.Valid() && !req.target.Database?
    ensures Aside(s, PerformRequest(cfg, server, s, req).app, MAX_ATTEMPTS)
  {
    hide PerformRequest;
    RequestSettles(cfg, server, s, req);
  }

  lemma SameButBuffer(s: App, t: App, t': App, n: nat)
    requires Aside(s, t, n) && t'.db == t.db && t'.sent == t.sent
    ensures Aside(s, t', n)
  {
  }

  lemma AuthIsAside(cfg: Config, server: Server, f: Fields, s: App)
    requires s.Valid()
    ensures Aside(s, GetAuthToken(cfg, server, f, s).app, MAX_ATTEMPTS)
  {
    hide PerformRequest, Aside;
    var req := Request(POST, TokenService, [], s.refresh);
    ServiceIsAside(cfg, server, s, req);
    SameButBuffer(s, PerformRequest(cfg, server, s, req).app, GetAuthToken(cfg, server, f, s).app, MAX_ATTEMPTS);
  }

  lemma RefreshTokenIsAside(cfg: Config, server: Server, f: Fields, s: App)
    requires s.Valid()
    ensures Aside(s, GetRefreshToken(cfg, server, f, s).app, MAX_ATTEMPTS)
  {
    hide PerformRequest, Aside;
    var req := Request(POST, LoginService, [], []);
    ServiceIsAside(cfg, server, s, req);
    SameButBuffer(s, PerformRequest(cfg, server, s, req).app, GetRefreshToken(cfg, server, f, s).app, MAX_ATTEMPTS);
  }

  lemma AsideMore(s: App, t: App, m: nat, n: nat)
    requires Aside(s, t, m) && m <= n
    ensures Aside(s, t, n)
  {
  }

  lemma LoginIsAside(cfg: Config, server: Server, f: Fields, s: App)
    requires s.Valid()
    ensures Aside(s, Login(cfg, server, f, s).app, 2 * MAX_ATTEMPTS)
  {
    hide GetRefreshToken, GetAuthToken, Aside;
    var first := GetRefreshToken(cfg, server, f, s).app;
    RefreshTokenIsAside(cfg, server, f, s);
    AsideMore(s, first, MAX_ATTEMPTS, 2 * MAX_ATTEMPTS);
    SameButBuffer(s, first, Clear(first), MAX_ATTEMPTS);
    AuthIsAside(cfg, server, f, Clear(first));
    var second := GetAuthToken(cfg, server, f, Clear(first)).app;
    AsideTrans(s, Clear(first), second, MAX_ATTEMPTS, MAX_ATTEMPTS);
    SameButBuffer(s, second, Clear(second), 2 * MAX_ATTEMPTS);
  }

  lemma RefreshIsAside(cfg: Config, server: Server, f: Fields, s: App)
    requires s.Valid()
    ensures Aside(s, ForceRefreshAuth(cfg, server, f, s).app, 3 * MAX_ATTEMPTS)
  {
    hide Login, GetAuthToken, Aside;
    var direct := GetAuthToken(cfg, server, f, s).app;
    AuthIsAside(cfg, server, f, s);
    AsideMore(s, direct, MAX_ATTEMPTS, 3 * MAX_ATTEMPTS);
    SameButBuffer(s, direct, Clear(direct), 3 * MAX_ATTEMPTS);
    LoginIsAside(cfg, server, f, direct);
    AsideTrans(s, direct, Login(cfg, server, f, direct).app, MAX_ATTEMPTS, 2 * MAX_ATTEMPTS);
  }

  // ---------------------------------------------------------------- writing

  /**
   * The requests of one operation: up to five with the token at the start, then possibly up to
   * fifteen to the services and up to five more with the token that was current after those.
   */
  ghost predicate Schedule(before: seq<Request>, after: seq<Request>, verb: Verb, path: Bytes, body: Bytes,
                           auth: Bytes, auth': Bytes) {
    exists i: nat, j: nat ::
      && |before| <= i <= j <= |after|
      && i <= |before| + 5 && j <= i + 15 && |after| <= j + 5
      && after[..|before|] == before
      && Sends(after[|before|..i], Request(verb, Database(path), auth, body))
      && AsksServices(after[i..j])
      && Sends(after[j..], Request(verb, Database(path), auth', body))
  }

  ghost predicate Sends(reqs: seq<Request>, req: Request) {
    forall k | 0 <= k < |reqs| :: reqs[k] == req
  }

  ghost predicate AsksServices(reqs: seq<Request>) {
    forall k | 0 <= k < |reqs| :: !reqs[k].target.Database?
  }

  lemma ApplyIgnoresToken(cfg: Config, db: Db, verb: Verb, path: Bytes, body: Bytes, t: Bytes, t': Bytes)
    ensures Apply(cfg, db, Request(verb, Database(path), t, body))
            == Apply(cfg, db, Request(verb, Database(path), t', body))
  {
    hide Deleted, Below;
  }

  lemma FirstPhase(before: seq<Request>, after: seq<Request>, verb: Verb, path: Bytes, body: Bytes, auth: Bytes)
    requires Repeats(before, after, Request(verb, Database(path), auth, body), MAX_ATTEMPTS)
    ensures Schedule(before, after, verb, path, body, auth, auth)
  {
    var n := |after|;
    assert after[n..n] == [] && after[n..] == [];
    assert Sends(after[|before|..n], Request(verb, Database(path), auth, body));
    assert AsksServices(after[n..n]) && Sends(after[n..], Request(verb, Database(path), auth, body));
  }

  lemma ThreePhases(a: seq<Request>, b: seq<Request>, c: seq<Request>, d: seq<Request>, verb: Verb, path: Bytes,
                    body: Bytes,
                    auth: Bytes, auth': Bytes)
    requires Repeats(a, b, Request(verb, Database(path), auth, body), 5)
    requires |b| <= |c| <= |b| + 15 && c[..|b|] == b
    requires forall i | |b| <= i < |c| :: !c[i].target.Database?
    requires Repeats(c, d, Request(verb, Database(path), auth', body), 5)
    ensures Schedule(a, d, verb, path, body, auth, auth')
  {
    assert d[..|a|] == c[..|a|] == b[..|a|] == a by {
      assert d[..|a|] == d[..|c|][..|a|];
      assert c[..|a|] == c[..|b|][..|a|];
    }
    assert d[|a|..|b|] == b[|a|..] by {
      assert d[|a|..|b|] == d[..|c|][|a|..|b|] == c[..|b|][|a|..|b|];
    }
    assert d[|b|..|c|] == c[|b|..] by {
      assert d[|b|..|c|] == d[..|c|][|b|..|c|];
    }
    assert Sends(d[|a|..|b|], Request(verb, Database(path), auth, body));
    assert AsksServices(d[|b|..|c|]);
    assert Sends(d[|c|..], Request(verb, Database(path), auth', body));
  }

  lemma WithRefreshSettles(cfg: Config, server: Server, f: Fields, s: App, verb: Verb, path: Bytes, body: Bytes)
    requires s.Valid() && Sound(cfg, server)
    ensures var p := WithRefresh(cfg, server, f, s, verb, path, body);
            var db' := Apply(cfg, s.db, Request(verb, Database(path), s.auth, body));
            && (p.app.db == s.db || p.app.db == db')
            && (Success(p.ret.ok, p.ret.status) ==> p.app.db == db')
            && Schedule(s.sent, p.app.sent, verb, path, body, s.auth, p.app.auth)
  {
    hide PerformRequest, ForceRefreshAuth, Apply, Schedule, Repeats, Sound;
    var req := Request(verb, Database(path), s.auth, body);
    var first := PerformRequest(cfg, server, s, req);
    RequestSettles(cfg, server, s, req);
    if first.ret.status == 401 {
      RefreshIsAside(cfg, server, f, first.app);
      var renewed := ForceRefreshAuth(cfg, server, f, first.app).app;
      var req' := Request(verb, Database(path), renewed.auth, body);
      RequestSettles(cfg, server, renewed, req');
      var last := PerformRequest(cfg, server, renewed, req');
      ApplyIgnoresToken(cfg, first.app.db, verb, path, body, s.auth, renewed.auth);
      ApplyTwice(cfg, s.db, req);
      ThreePhases(s.sent, first.app.sent, renewed.sent, last.app.sent, verb, path, body, s.auth, renewed.auth);
    } else {
      FirstPhase(s.sent, first.app.sent, verb, path, body, s.auth);
    }
  }

  lemma ScheduleLength(before: seq<Request>, after: seq<Request>, verb: Verb, path: Bytes, body: Bytes, auth: Bytes,
                       auth': Bytes)
    requires Schedule(before, after, verb, path, body, auth, auth')
    ensures before <= after && |after| <= |before| + 25
  {
  }

  /**
   * Whatever is lost, refused or refreshed: the database is unchanged or has exactly the new
   * value at the path, success means the latter, and at most 25 requests are sent, those after
   * a refresh with the token it left.
   */
  lemma PutIsAllOrNothing(cfg: Config, server: Server, f: Fields, s: App, path: Bytes, json: Bytes)
    requires s.Valid() && Sound(cfg, server)
    ensures var o := PutData(cfg, server, f, s, path, json);
            && (o.app.db == s.db || o.app.db == s.db[path := json])
            && (o.ok ==> o.app.db == s.db[path := json])
            && Schedule(s.sent, o.app.sent, PUT, path, json, s.auth, o.app.auth)
            && s.sent <= o.app.sent && |o.app.sent| <= |s.sent| + 25
            && o.app.buffer == EMPTY
  {
    hide WithRefresh, Schedule, Sound;
    WithRefreshSettles(cfg, server, f, s, PUT, path, json);
    var p := WithRefresh(cfg, server, f, s, PUT, path, json);
    ScheduleLength(s.sent, p.app.sent, PUT, path, json, s.auth, p.app.auth);
  }

  /** A successful delete leaves nothing at the path or below it; a failed one may or may not. */
  lemma DeleteIsAllOrNothing(cfg: Config, server: Server, f: Fields, s: App, path: Bytes)
    requires s.Valid() && Sound(cfg, server)
    ensures var o := DeleteData(cfg, server, f, s, path);
            && (o.ok ==> forall p | p in o.app.db :: p != path && !Below(p, path))
            && (forall p :: p in o.app.db ==> p in s.db && o.app.db[p] == s.db[p])
            && (forall p :: p in s.db && p != path && !Below(p, path) ==> p in o.app.db)
            && (o.app.db == s.db || forall p | p in o.app.db :: p != path && !Below(p, path))
            && o.app.buffer == EMPTY
  {
    hide WithRefresh, Schedule, Sound, Below;
    WithRefreshSettles(cfg, server, f, s, DELETE, path, []);
  }

  // ---------------------------------------------------------------- exactly when

  /** One of the database requests sent from number `n` on was carried out. */
  ghost predicate AppliedSince(app: App, n: nat)
    requires app.Valid()
  {
    exists i :: n <= i < |app.sent| && app.sent[i].target.Database? && app.replies[i].applied
  }

  /** The requests and replies of `s` are the first ones of `s'`. */
  ghost predicate Continues(s: App, s': App)
    requires s.Valid() && s'.Valid()
  {
    s.sent <= s'.sent && s.replies <= s'.replies
  }

  lemma ContinuesTrans(a: App, b: App, c: App)
    requires a.Valid() && b.Valid() && c.Valid() && Continues(a, b) && Continues(b, c)
    ensures Continues(a, c)
  {
  }

  /** Of the attempts from number `n` on only the last can be a success, and `ret` is its result. */
  ghost predicate EndsWith(app: App, n: nat, ret: Ret)
    requires app.Valid()
  {
    && (|app.sent| > n ==> var r := app.replies[|app.sent| - 1]; ret == Ret(r.ok, r.status))
    && (forall i | n <= i < |app.sent| - 1 :: !Success(app.replies[i].ok, app.replies[i].status))
  }

  lemma AppliedStep(s: App, mid: App, app: App, req: Request, r: Reply)
    requires s.Valid() && mid.Valid() && app.Valid() && Continues(mid, app)
    requires mid.sent == s.sent + [req] && mid.replies == s.replies + [r] && req.target.Database?
    ensures AppliedSince(app, |s.sent|) <==> r.applied || AppliedSince(app, |mid.sent|)
  {
    var n := |s.sent|;
    assert app.sent[n] == mid.sent[n] == req && app.replies[n] == mid.replies[n] == r;
    if AppliedSince(app, |mid.sent|) {
      var i :| |mid.sent| <= i < |app.sent| && app.sent[i].target.Database? && app.replies[i].applied;
      assert n <= i;
    }
    if AppliedSince(app, n) && !r.applied {
      var i :| n <= i < |app.sent| && app.sent[i].target.Database? && app.replies[i].applied;
      assert i != n;
    }
  }

  lemma EndsStep(s: App, mid: App, app: App, r: Reply, ret: Ret)
    requires s.Valid() && mid.Valid() && app.Valid() && Continues(mid, app)
    requires |mid.sent| == |s.sent| + 1 && mid.replies == s.replies + [r] && !Success(r.ok, r.status)
    requires EndsWith(app, |mid.sent|, ret) && (|app.sent| == |mid.sent| ==> ret == Ret(r.ok, r.status))
    ensures EndsWith(app, |s.sent|, ret)
  {
    assert app.replies[|s.sent|] == mid.replies[|s.sent|] == r;
  }

  /** The attempts of one request, recorded: the database shows the request exactly when one of them was applied. */
  lemma {:induction false} PerformExactly(cfg: Config, server: Server, s: App, req: Request, n: nat, last: Ret)
    requires s.Valid() && req.target.Database?
    ensures var p := Perform(cfg, server, s, req, n, last);
            && Continues(s, p.app)
            && p.app.db == (if AppliedSince(p.app, |s.sent|) then Apply(cfg, s.db, req) else s.db)
            && EndsWith(p.app, |s.sent|, p.ret)
            && (|p.app.sent| == |s.sent| ==> p.ret == last)
    decreases n
  {
    hide Apply, Attempt, AppliedSince, EndsWith;
    NothingSince(s);
    if n > 0 {
      var r := server(s.clock, s.db, req);
      var s' := Attempt(cfg, s, req, r);
      AttemptFacts(cfg, s, req, r);
      if s.client == Missing && !r.clientReady {
        NothingSince(s.(clock := s.clock + 1));
      } else if Success(r.ok, r.status) {
        NothingSince(s');
        AppliedStep(s, s', s', req, r);
        OneAttempt(s, s', r);
      } else {
        PerformExactly(cfg, server, s', req, n - 1, Ret(r.ok, r.status));
        var p := Perform(cfg, server, s', req, n - 1, Ret(r.ok, r.status));
        AppliedStep(s, s', p.app, req, r);
        EndsStep(s, s', p.app, r, p.ret);
        ApplyTwice(cfg, s.db, req);
      }
    }
  }

  lemma NothingSince(s: App)
    requires s.Valid()
    ensures !AppliedSince(s, |s.sent|) && forall ret :: EndsWith(s, |s.sent|, ret)
  {
  }

  lemma OneAttempt(s: App, s': App, r: Reply)
    requires s.Valid() && s'.Valid() && |s'.sent| == |s.sent| + 1 && s'.replies == s.replies + [r]
    ensures EndsWith(s', |s.sent|, Ret(r.ok, r.status))
  {
  }

  lemma RequestExactly(cfg: Config, server: Server, s: App, req: Request)
    requires s.Valid() && req.target.Database?
    ensures var p := PerformRequest(cfg, server, s, req);
            && Continues(s, p.app)
            && p.app.db == (if AppliedSince(p.app, |s.sent|) then Apply(cfg, s.db, req) else s.db)
            && EndsWith(p.app, |s.sent|, p.ret)
            && (p.ret.ok ==> LastAnswer(p.app, |s.sent|, p.ret))
  {
    hide Perform;
    PerformExactly(cfg, server, s, req, MAX_ATTEMPTS, NO_REPLY);
    PerformSettles(cfg, server, s, req, MAX_ATTEMPTS, NO_REPLY);
  }

  /** The last request from number `n` on went to the database and was answered by `ret`. */
  ghost predicate LastAnswer(app: App, n: nat, ret: Ret)
    requires app.Valid()
  {
    var i := |app.sent| - 1;
    i >= n && app.sent[i].target.Database? && ret == Ret(app.replies[i].ok, app.replies[i].status)
  }

  /** The replies recorded from number `n` on came from the server. */
  ghost predicate FromServer(server: Server, app: App, n: nat)
    requires app.Valid()
  {
    forall i | n <= i < |app.replies| :: IsReply(server, app.replies[i])
  }

  ghost predicate IsReply(server: Server, r: Reply) {
    exists m, db, req :: r == server(m, db, req)
  }

  lemma {:induction false} PerformIsFromServer(cfg: Config, server: Server, s: App, req: Request, n: nat, last: Ret)
    requires s.Valid()
    ensures var p := Perform(cfg, server, s, req, n, last);
            Continues(s, p.app) && FromServer(server, p.app, |s.sent|)
    decreases n
  {
    hide Apply, Receive;
    if n > 0 {
      var r := server(s.clock, s.db, req);
      var s' := Attempt(cfg, s, req, r);
      if !(s.client == Missing && !r.clientReady) {
        var p := Perform(cfg, server, s', req, n - 1, Ret(r.ok, r.status));
        PerformIsFromServer(cfg, server, s', req, n - 1, Ret(r.ok, r.status));
        assert IsReply(server, r) && s'.replies[|s.sent|] == r;
        assert Success(r.ok, r.status) || p.app.replies[|s.sent|] == r;
      }
    }
  }

  lemma RequestIsFromServer(cfg: Config, server: Server, s: App, req: Request)
    requires s.Valid()
    ensures var p := PerformRequest(cfg, server, s, req); Continues(s, p.app) && FromServer(server, p.app, |s.sent|)
  {
    PerformIsFromServer(cfg, server, s, req, MAX_ATTEMPTS, NO_REPLY);
  }

  lemma FromServerTrans(server: Server, a: App, b: App, c: App)
    requires a.Valid() && b.Valid() && c.Valid() && Continues(a, b) && Continues(b, c)
    requires FromServer(server, b, |a.sent|) && FromServer(server, c, |b.sent|)
    ensures Continues(a, c) && FromServer(server, c, |a.sent|)
  {
    forall i | |a.sent| <= i < |c.replies| ensures IsReply(server, c.replies[i]) {
      if i < |b.replies| {
        assert c.replies[i] == b.replies[i];
      }
    }
  }

  lemma RefreshIsFromServer(cfg: Config, server: Server, f: Fields, s: App)
    requires s.Valid()
    ensures var s' := ForceRefreshAuth(cfg, server, f, s).app; Continues(s, s') && FromServer(server, s', |s.sent|)
  {
    hide PerformRequest, Continues, FromServer;
    RequestIsFromServer(cfg, server, s, Request(POST, TokenService, [], s.refresh));
    var a := GetAuthToken(cfg, server, f, s).app;
    SameLog(server, s, PerformRequest(cfg, server, s, Request(POST, TokenService, [], s.refresh)).app, a);
    SameLog(server, s, a, Clear(a));
    RequestIsFromServer(cfg, server, a, Request(POST, LoginService, [], []));
    var b := GetRefreshToken(cfg, server, f, a).app;
    SameLog(server, a, PerformRequest(cfg, server, a, Request(POST, LoginService, [], [])).app, b);
    FromServerTrans(server, s, a, b);
    SameLog(server, s, b, Clear(b));
    var again := Request(POST, TokenService, [], b.refresh);
    RequestIsFromServer(cfg, server, Clear(b), again);
    var c := GetAuthToken(cfg, server, f, Clear(b)).app;
    SameLog(server, Clear(b), PerformRequest(cfg, server, Clear(b), again).app, c);
    FromServerTrans(server, s, Clear(b), c);
    SameLog(server, s, c, Clear(c));
  }

  lemma SameLog(server: Server, s: App, t: App, t': App)
    requires s.Valid() && t.Valid() && t'.Valid() && t'.sent == t.sent && t'.replies == t.replies
    requires Continues(s, t) && FromServer(server, t, |s.sent|)
    ensures Continues(s, t') && FromServer(server, t', |s.sent|)
  {
  }

  /** No database request sent from number `n` on was answered by `ret`. */
  ghost predicate NeverAnswered(app: App, n: nat, ok: bool, status: int)
    requires app.Valid()
  {
    forall i | n <= i < |app.sent| && app.sent[i].target.Database? ::
        (app.replies[i].ok, app.replies[i].status) != (ok, status)
  }

  /** A success ends the loop: a result that is none means that no attempt was one. */
  lemma NoSuccess(app: App, n: nat, ret: Ret, status: int)
    requires app.Valid() && EndsWith(app, n, ret) && Success(true, status) && ret != Ret(true, status)
    ensures NeverAnswered(app, n, true, status)
  {
  }

  /** Before a refresh, during it, and after it: what the log has at a place in the two outer parts. */
  lemma ThreeLogsAt(first: App, renewed: App, last: App, i: nat)
    requires first.Valid() && renewed.Valid() && last.Valid() && Continues(first, renewed) && Continues(renewed, last)
    requires forall k | |first.sent| <= k < |renewed.sent| :: !renewed.sent[k].target.Database?
    requires i < |last.sent| && last.sent[i].target.Database?
    ensures i >= |renewed.sent| || (i < |first.sent| && last.sent[i] == first.sent[i]
            && last.replies[i] == first.replies[i])
  {
    assert i < |renewed.sent| ==> last.sent[i] == renewed.sent[i] && last.replies[i] == renewed.replies[i];
    assert i < |first.sent| ==> renewed.sent[i] == first.sent[i] && renewed.replies[i] == first.replies[i];
  }

  lemma ThreeLogs(s: App, first: App, renewed: App, last: App)
    requires s.Valid() && first.Valid() && renewed.Valid() && last.Valid()
    requires Continues(s, first) && Continues(first, renewed) && Continues(renewed, last)
    requires forall i | |first.sent| <= i < |renewed.sent| :: !renewed.sent[i].target.Database?
    ensures Continues(s, last)
    ensures AppliedSince(last, |s.sent|) <==> AppliedSince(first, |s.sent|) || AppliedSince(last, |renewed.sent|)
  {
    if AppliedSince(last, |s.sent|) {
      var i :| |s.sent| <= i < |last.sent| && last.sent[i].target.Database? && last.replies[i].applied;
      ThreeLogsAt(first, renewed, last, i);
    }
    if AppliedSince(first, |s.sent|) {
      var i :| |s.sent| <= i < |first.sent| && first.sent[i].target.Database? && first.replies[i].applied;
      assert last.sent[i] == first.sent[i] && last.replies[i] == first.replies[i];
    }
    if AppliedSince(last, |renewed.sent|) {
      var i :| |renewed.sent| <= i < |last.sent| && last.sent[i].target.Database? && last.replies[i].applied;
      assert |s.sent| <= i;
    }
  }

  lemma NeverInThreeLogs(s: App, first: App, renewed: App, last: App, ok: bool, status: int)
    requires s.Valid() && first.Valid() && renewed.Valid() && last.Valid()
    requires Continues(s, first) && Continues(first, renewed) && Continues(renewed, last)
    requires forall i | |first.sent| <= i < |renewed.sent| :: !renewed.sent[i].target.Database?
    requires NeverAnswered(first, |s.sent|, ok, status) && NeverAnswered(last, |renewed.sent|, ok, status)
    ensures NeverAnswered(last, |s.sent|, ok, status)
  {
    forall i | |s.sent| <= i < |last.sent| && last.sent[i].target.Database?
      ensures (last.replies[i].ok, last.replies[i].status) != (ok, status)
    {
      ThreeLogsAt(first, renewed, last, i);
    }
  }

  /**
   * For every server: the database shows the request exactly when one of its
   * attempts was applied; the replies are the server's; and no attempt had a success that is
   * not the result.
   */
  lemma WithRefreshExactly(cfg: Config, server: Server, f: Fields, s: App, verb: Verb, path: Bytes, body: Bytes,
                           status: int)
    requires s.Valid() && Success(true, status)
    ensures var p := WithRefresh(cfg, server, f, s, verb, path, body);
            && Continues(s, p.app)
            && p.app.db == (if AppliedSince(p.app, |s.sent|)
                            then Apply(cfg, s.db, Request(verb, Database(path), s.auth, body)) else s.db)
            && (p.ret != Ret(true, status) ==> NeverAnswered(p.app, |s.sent|, true, status))
            && (p.ret.ok ==> LastAnswer(p.app, |s.sent|, p.ret))
            && FromServer(server, p.app, |s.sent|)
  {
    hide PerformRequest, ForceRefreshAuth, Apply, AppliedSince, EndsWith, NeverAnswered, FromServer;
    var req := Request(verb, Database(path), s.auth, body);
    var first := PerformRequest(cfg, server, s, req);
    RequestExactly(cfg, server, s, req);
    RequestIsFromServer(cfg, server, s, req);
    if first.ret != Ret(true, status) {
      NoSuccess(first.app, |s.sent|, first.ret, status);
    }
    if first.ret.status == 401 {
      RefreshIsAside(cfg, server, f, first.app);
      RefreshIsFromServer(cfg, server, f, first.app);
      var renewed := ForceRefreshAuth(cfg, server, f, first.app).app;
      var req' := Request(verb, Database(path), renewed.auth, body);
      RequestExactly(cfg, server, renewed, req');
      RequestIsFromServer(cfg, server, renewed, req');
      var last := PerformRequest(cfg, server, renewed, req');
      if last.ret != Ret(true, status) {
        NoSuccess(last.app, |renewed.sent|, last.ret, status);
        NeverInThreeLogs(s, first.app, renewed, last.app, true, status);
      }
      ApplyIgnoresToken(cfg, first.app.db, verb, path, body, s.auth, renewed.auth);
      ApplyTwice(cfg, s.db, req);
      ThreeLogs(s, first.app, renewed, last.app);
      FromServerTrans(server, s, first.app, renewed);
      FromServerTrans(server, s, renewed, last.app);
    }
  }

  /** A request that was applied without being answered by 200: its reply was lost, or it was another 2xx. */
  predicate Unreported(r: Reply) {
    !r.ok || (Success(r.ok, r.status) && r.status != 200)
  }

  /**
   * The exact effect of a PUT, for every server: the value is written if and only if some
   * attempt of the call was applied. When the result is a failure, every such attempt is one
   * whose reply was lost or was a 2xx other than 200.
   */
  lemma PutExactly(cfg: Config, server: Server, f: Fields, s: App, path: Bytes, json: Bytes)
    requires s.Valid()
    ensures var o := PutData(cfg, server, f, s, path, json);
            && Continues(s, o.app)
            && o.app.db == (if AppliedSince(o.app, |s.sent|) then s.db[path := json] else s.db)
            && (o.ok ==> LastAnswer(o.app, |s.sent|, Ret(true, 200)))
            && (!o.ok && Sound(cfg, server) ==>
                  forall i | |s.sent| <= i < |o.app.sent| && o.app.sent[i].target.Database?
                      && o.app.replies[i].applied ::
                    Unreported(o.app.replies[i]))
  {
    hide WithRefresh, FromServer, Sound;
    WithRefreshExactly(cfg, server, f, s, PUT, path, json, 200);
    var p := WithRefresh(cfg, server, f, s, PUT, path, json);
    assert AppliedSince(Clear(p.app), |s.sent|) <==> AppliedSince(p.app, |s.sent|);
    if Sound(cfg, server) {
      RepliesAreHonest(cfg, server, p.app, |s.sent|);
    }
  }

  lemma RepliesAreHonest(cfg: Config, server: Server, app: App, n: nat)
    requires app.Valid() && Sound(cfg, server) && FromServer(server, app, n)
    ensures forall i | n <= i < |app.replies| :: HonestReply(app.replies[i])
  {
    forall i | n <= i < |app.replies| ensures HonestReply(app.replies[i]) {
      assert IsReply(server, app.replies[i]);
      var m, db, req :| app.replies[i] == server(m, db, req);
      assert SoundReply(cfg, db, req, server(m, db, req));
    }
  }

  /** Every reply arrives, and a success is a 200. */
  ghost predicate Reliable(server: Server) {
    forall n, db, req :: !Unreported(server(n, db, req))
  }

  lemma RepliesAreReported(server: Server, app: App, n: nat)
    requires app.Valid() && Reliable(server) && FromServer(server, app, n)
    ensures forall i | n <= i < |app.replies| :: !Unreported(app.replies[i])
  {
    forall i | n <= i < |app.replies| ensures !Unreported(app.replies[i]) {
      assert IsReply(server, app.replies[i]);
      var m, db, req :| app.replies[i] == server(m, db, req);
      assert !Unreported(server(m, db, req));
    }
  }

  /** Where every reply arrives and every 2xx is a 200, the result tells exactly what happened. */
  lemma ReliableResult(cfg: Config, server: Server, f: Fields, s: App, path: Bytes, json: Bytes)
    requires s.Valid() && Sound(cfg, server) && Reliable(server)
    ensures var o := PutData(cfg, server, f, s, path, json);
            && (o.ok <==> AppliedSince(o.app, |s.sent|))
            && o.app.db == if o.ok then s.db[path := json] else s.db
  {
    hide WithRefresh, FromServer, Sound, Reliable;
    PutExactly(cfg, server, f, s, path, json);
    WithRefreshExactly(cfg, server, f, s, PUT, path, json, 200);
    var p := WithRefresh(cfg, server, f, s, PUT, path, json);
    RepliesAreHonest(cfg, server, p.app, |s.sent|);
    RepliesAreReported(server, p.app, |s.sent|);
  }

  /** The exact effect of a DELETE; when it fails, it was applied only if a reply was lost. */
  lemma DeleteExactly(cfg: Config, server: Server, f: Fields, s: App, path: Bytes)
    requires s.Valid()
    ensures var o := DeleteData(cfg, server, f, s, path);
            && Continues(s, o.app)
            && o.app.db == (if AppliedSince(o.app, |s.sent|)
                            then Apply(cfg, s.db, Request(DELETE, Database(path), s.auth, [])) else s.db)
            && (!o.ok && Sound(cfg, server) ==>
                  forall i | |s.sent| <= i < |o.app.sent| && o.app.sent[i].target.Database?
                      && o.app.replies[i].applied ::
                    !o.app.replies[i].ok)
  {
    hide WithRefresh, FromServer, Sound, Apply;
    WithRefreshExactly(cfg, server, f, s, DELETE, path, [], 200);
    var p := WithRefresh(cfg, server, f, s, DELETE, path, []);
    assert AppliedSince(Clear(p.app), |s.sent|) <==> AppliedSince(p.app, |s.sent|);
    if Sound(cfg, server) && !Success(p.ret.ok, p.ret.status) {
      RepliesAreHonest(cfg, server, p.app, |s.sent|);
      forall i | |s.sent| <= i < |p.app.sent| && p.app.sent[i].target.Database? && p.app.replies[i].applied
        ensures !p.app.replies[i].ok
      {
        if p.app.replies[i].ok {
          WithRefreshExactly(cfg, server, f, s, DELETE, path, [], p.app.replies[i].status);
        }
      }
    }
  }

  // ---------------------------------------------------------------- failures that were applied

  /** A server that gives the same answer to everything. */
  function Always(r: Reply): Server {
    (n: nat, db: Db, req: Request) => r
  }

  const LOST: Reply := Reply(true, false, 0, true, false, [], false)
  const NO_CONTENT: Reply := Reply(true, true, 204, true, true, [], true)

  /** When every reply is lost, the value is written and the result is a failure. */
  lemma LostReplies(cfg: Config, f: Fields, s: App, path: Bytes, json: Bytes)
    requires s.Valid() && s.client == Listening
    ensures Sound(cfg, Always(LOST))
    ensures var o := PutData(cfg, Always(LOST), f, s, path, json);
            !o.ok && o.app.db == s.db[path := json] && |o.app.sent| == |s.sent| + 5
  {
    hide ListsOldest;
    LostRepliesPerform(cfg, s, Request(PUT, Database(path), s.auth, json), MAX_ATTEMPTS, NO_REPLY);
  }

  lemma {:induction false} LostRepliesPerform(cfg: Config, s: App, req: Request, n: nat, last: Ret)
    requires s.Valid() && s.client == Listening && !last.ok && last.status != 401
    ensures var p := Perform(cfg, Always(LOST), s, req, n, last);
            && !p.ret.ok && p.ret.status != 401 && |p.app.sent| == |s.sent| + n
            && p.app.db == if n == 0 then s.db else Apply(cfg, s.db, req)
    decreases n
  {
    hide Apply, Receive;
    if n > 0 {
      LostRepliesPerform(cfg, Attempt(cfg, s, req, LOST), req, n - 1, Ret(false, 0));
      ApplyTwice(cfg, s.db, req);
    }
  }

  /** No reply need be lost: 204 ends the retry loop as a success, and putData calls it a failure. */
  lemma NoContentIsFailure(cfg: Config, f: Fields, s: App, path: Bytes, json: Bytes)
    requires s.Valid() && s.client == Listening
    ensures Sound(cfg, Always(NO_CONTENT))
    ensures var o := PutData(cfg, Always(NO_CONTENT), f, s, path, json);
            !o.ok && o.app.db == s.db[path := json] && |o.app.sent| == |s.sent| + 1
  {
    hide ListsOldest, Receive;
    var req := Request(PUT, Database(path), s.auth, json);
    assert Perform(cfg, Always(NO_CONTENT), s, req, MAX_ATTEMPTS, NO_REPLY)
        == Performed(Attempt(cfg, s, req, NO_CONTENT), Ret(true, 204));
  }

  // ---------------------------------------------------------------- the refresh happens and is used

  /** A client that exists sends at least one request and goes on existing. */
  lemma {:induction false} PerformSends(cfg: Config, server: Server, s: App, req: Request, n: nat, last: Ret)
    requires s.Valid() && s.client != Missing
    ensures var p := Perform(cfg, server, s, req, n, last);
            && p.app.client != Missing && s.sent <= p.app.sent
            && (n > 0 ==> |p.app.sent| > |s.sent| && p.app.sent[|s.sent|] == req)
    decreases n
  {
    hide Apply, Receive;
    if n > 0 {
      var r := server(s.clock, s.db, req);
      PerformSends(cfg, server, Attempt(cfg, s, req, r), req, n - 1, Ret(r.ok, r.status));
    }
  }

  lemma RequestSends(cfg: Config, server: Server, s: App, req: Request)
    requires s.Valid() && s.client != Missing
    ensures var p := PerformRequest(cfg, server, s, req);
            && p.app.client != Missing && s.sent <= p.app.sent
            && |p.app.sent| > |s.sent| && p.app.sent[|s.sent|] == req
  {
    PerformSends(cfg, server, s, req, MAX_ATTEMPTS, NO_REPLY);
  }

  lemma RefreshKeepsClient(cfg: Config, server: Server, f: Fields, s: App)
    requires s.Valid() && s.client != Missing
    ensures var s' := ForceRefreshAuth(cfg, server, f, s).app;
            && s'.client != Missing && s.sent <= s'.sent
            && |s'.sent| > |s.sent| && s'.sent[|s.sent|].target == TokenService
  {
    hide PerformRequest;
    var req := Request(POST, TokenService, [], s.refresh);
    RequestSends(cfg, server, s, req);
    var a := GetAuthToken(cfg, server, f, s).app;
    RequestSends(cfg, server, a, Request(POST, LoginService, [], []));
    var b := Clear(GetRefreshToken(cfg, server, f, a).app);
    RequestSends(cfg, server, b, Request(POST, TokenService, [], b.refresh));
  }

  // ---------------------------------------------------------------- what is heard

  /** The next response will not be appended to an unfinished one. */
  ghost predicate Ready(server: Server, s: App) {
    && s.Valid()
    && (s.client != Listening ==> s.buffer == EMPTY)
    && (s.buffer.len != 0 ==> forall db, req :: server(s.clock, db, req).connected)
  }

  /** After a response that is not empty or has its own connection, the text is the start of that response. */
  ghost predicate Hears(app: App)
    requires app.Valid() && app.sent != []
  {
    var r := app.replies[|app.replies| - 1];
    app.client == Listening && (r.connected || Body(r.events) != []) ==> app.Text() == CString(Kept(Body(r.events)))
  }

  lemma ReceivedText(b: Buffer, r: Reply)
    requires b.Valid() && OnlyData(r.events) && (r.connected || (b.len == 0 && Body(r.events) != []))
    ensures CString(Receive(b, r).cells) == CString(Kept(Body(r.events)))
  {
    hide CString, Step, Run, Body;
    var start := if r.connected then EMPTY else b;
    EmptyHolds(start);
    ConnectedIsEmpty(b);
    ConnectedIsEmpty(EMPTY);
    assert [] + Body(r.events) == Body(r.events);
    ResponseText(start, [], r.events, r.connected);
  }

  lemma AttemptHears(cfg: Config, server: Server, s: App, req: Request)
    requires Ready(server, s) && Sound(cfg, server) && Reconnects(server)
    requires s.client != Missing || server(s.clock, s.db, req).clientReady
    ensures var s' := Attempt(cfg, s, req, server(s.clock, s.db, req)); Ready(server, s') && Hears(s')
  {
    hide CString, Apply, Receive, ListsOldest;
    var r := server(s.clock, s.db, req);
    assert SoundReply(cfg, s.db, req, r);
    if s.client == Listening {
      FinishedIsReset(s.buffer, r);
      if r.connected || Body(r.events) != [] {
        ReceivedText(s.buffer, r);
      }
    }
  }

  lemma FinishedIsReset(b: Buffer, r: Reply)
    requires b.Valid()
    ensures r.finished ==> Receive(b, r).len == 0
  {
    hide Run;
  }

  lemma {:induction false} PerformHears(cfg: Config, server: Server, s: App, req: Request, n: nat, last: Ret)
    requires Ready(server, s) && Sound(cfg, server) && Reconnects(server)
    ensures var p := Perform(cfg, server, s, req, n, last);
            && Ready(server, p.app) && Continues(s, p.app)
            && (|p.app.sent| == |s.sent| ==> p.ret == last && p.app.buffer == s.buffer && p.app.client == s.client)
            && (|p.app.sent| > |s.sent| ==>
                  var i := |p.app.sent| - 1;
                  && Hears(p.app) && p.app.sent[i] == req
                  && p.ret == Ret(p.app.replies[i].ok, p.app.replies[i].status))
    decreases n
  {
    hide Attempt, CString, Sound, Reconnects;
    if n > 0 {
      var r := server(s.clock, s.db, req);
      AttemptFacts(cfg, s, req, r);
      if s.client != Missing || r.clientReady {
        AttemptHears(cfg, server, s, req);
        if !Success(r.ok, r.status) {
          PerformHears(cfg, server, Attempt(cfg, s, req, r), req, n - 1, Ret(r.ok, r.status));
        }
      }
    }
  }

  /** The last request went to the token service, which answered 200 with the token. */
  ghost predicate TokenCame(f: Fields, app: App, n: nat)
    requires app.Valid()
  {
    && |app.sent| > n
    && var r := app.replies[|app.replies| - 1];
    && app.sent[|app.sent| - 1].target == TokenService && r.ok && r.status == 200
    && (app.client == Listening && (r.connected || Body(r.events) != [])
        ==> app.auth == f.access(CString(Kept(Body(r.events)))))
  }

  lemma AuthOutcome(cfg: Config, server: Server, f: Fields, s: App)
    requires Ready(server, s) && Sound(cfg, server) && Reconnects(server)
    ensures var o := GetAuthToken(cfg, server, f, s);
            && Ready(server, o.app) && Continues(s, o.app)
            && (if o.ok then o.app.auth == f.access(o.app.Text()) && TokenCame(f, o.app, |s.sent|)
                else o.app.auth == s.auth)
  {
    hide Perform, Sound, Settled, Reconnects, CString;
    var req := Request(POST, TokenService, [], s.refresh);
    PerformHears(cfg, server, s, req, MAX_ATTEMPTS, NO_REPLY);
    RequestSettles(cfg, server, s, req);
    SettledKeepsToken(cfg, server, s, req, PerformRequest(cfg, server, s, req));
  }

  lemma ClearIsReady(server: Server, s: App)
    requires s.Valid()
    ensures Ready(server, Clear(s))
  {
  }

  lemma LoginOutcome(cfg: Config, server: Server, f: Fields, s: App)
    requires Ready(server, s) && Sound(cfg, server) && Reconnects(server)
    ensures var o := Login(cfg, server, f, s);
            Continues(s, o.app) && if o.ok then TokenCame(f, o.app, |s.sent|) else o.app.auth == s.auth
  {
    hide Perform, Sound, Settled, Reconnects, CString;
    var req := Request(POST, LoginService, [], []);
    RequestSettles(cfg, server, s, req);
    SettledKeepsToken(cfg, server, s, req, PerformRequest(cfg, server, s, req));
    RequestIsFromServer(cfg, server, s, req);
    var b := GetRefreshToken(cfg, server, f, s).app;
    ClearIsReady(server, b);
    AuthOutcome(cfg, server, f, Clear(b));
  }

  /**
   * A refresh that fails leaves the token as it was. After one that succeeds the last request
   * went to the token service, was answered 200, and the token is the one read from that
   * response, if it was not empty or had its own connection.
   */
  lemma RefreshOutcome(cfg: Config, server: Server, f: Fields, s: App)
    requires Ready(server, s) && Sound(cfg, server) && Reconnects(server)
    ensures var o := ForceRefreshAuth(cfg, server, f, s);
            Continues(s, o.app) && if o.ok then TokenCame(f, o.app, |s.sent|) else o.app.auth == s.auth
  {
    hide GetAuthToken, Login, Sound, Reconnects, CString;
    AuthOutcome(cfg, server, f, s);
    var direct := GetAuthToken(cfg, server, f, s);
    if !direct.ok {
      LoginOutcome(cfg, server, f, direct.app);
      ContinuesTrans(s, direct.app, Login(cfg, server, f, direct.app).app);
    }
  }

  lemma SettledKeepsToken(cfg: Config, server: Server, s: App, req: Request, p: Performed)
    requires Settled(cfg, server, s, req, MAX_ATTEMPTS, p)
    ensures p.app.auth == s.auth
  {
  }

  /**
   * When the last answer to a PUT is 401, the token service is asked next, and after that the
   * PUT is sent again with the token that is then current.
   */
  lemma PutAgainAfter401(cfg: Config, server: Server, f: Fields, s: App, path: Bytes, json: Bytes)
    requires s.Valid() && Sound(cfg, server) && s.client != Missing
    requires PerformRequest(cfg, server, s, Request(PUT, Database(path), s.auth, json)).ret.status == 401
    ensures var n := |PerformRequest(cfg, server, s, Request(PUT, Database(path), s.auth, json)).app.sent|;
            var o := PutData(cfg, server, f, s, path, json).app;
            && n < |o.sent| && o.sent[n].target == TokenService
            && exists k :: n < k < |o.sent| && o.sent[k] == Request(PUT, Database(path), o.auth, json)
  {
    hide PerformRequest, Sound, Settled;
    var req := Request(PUT, Database(path), s.auth, json);
    var first := PerformRequest(cfg, server, s, req).app;
    RequestSends(cfg, server, s, req);
    RefreshKeepsClient(cfg, server, f, first);
    var renewed := ForceRefreshAuth(cfg, server, f, first).app;
    var again := Request(PUT, Database(path), renewed.auth, json);
    RequestSends(cfg, server, renewed, again);
    RequestSettles(cfg, server, renewed, again);
    SettledKeepsToken(cfg, server, renewed, again, PerformRequest(cfg, server, renewed, again));
    var o := PutData(cfg, server, f, s, path, json).app;
    assert o.sent[|renewed.sent|] == again;
  }
}
