/**
 * The Firebase client: requests with retries, token refresh, and the database operations built
 * on them, as functions of a server that may answer anything, lose requests and lose replies.
 * FirebaseApp.dfy holds the class that is proved equal to this.
 */
module Firebase {
  import opened Bytes
  import opened Values
  import opened ReaderSpec
  import opened Truncation
  import opened PatchBodies
  import opened ReceiveBuffers

  // ---------------------------------------------------------------- requests and replies

  /** The two kinds of GET: ordered by key and limited, and the names alone. */
  datatype Verb = GET_OLDEST | GET_SHALLOW | PUT | POST | PATCH | DELETE

  datatype Target = LoginService | TokenService | Database(path: Bytes)

  datatype Request = Request(verb: Verb, target: Target, token: Bytes, body: Bytes)

  /** What is stored under which path. */
  type Db = map<Bytes, Bytes>

  /**
   * One attempt: the transport result and status (any number if the transport failed),
   * whether the server carried the request out, and the events delivered while receiving.
   * `clientReady` matters only when the HTTP client has to be created first.
   */
  datatype Reply = Reply(
    clientReady: bool,
    ok: bool,
    status: int,
    applied: bool,
    connected: bool,
    events: seq<Event>,
    finished: bool)

  /** The network and the server: the reply to the attempt with number `n`. */
  type Server = (nat, Db, Request) -> Reply

  predicate Success(ok: bool, status: int) {
    ok && 200 <= status < 300
  }

  function Child(root: Bytes, name: Bytes): Bytes {
    root + [SLASH] + name
  }

  predicate Below(path: Bytes, root: Bytes) {
    root + [SLASH] <= path
  }

  /**
   * The entries that a PATCH body maps to null. A body with other values would also write
   * entries; the device sends none such for names without a quote or a backslash.
   */
  function Deleted(cfg: Config, root: Bytes, body: Bytes): set<Bytes> {
    var p := Parse(cfg, body, NULL_NODE);
    if p.status != Ok || !p.root.ObjNode? then {}
    else set i | 0 <= i < |p.root.members| && IsNullNode(p.root.members[i].val) :: Child(root, p.root.members[i].key)
  }

  predicate IsNullNode(n: Node) {
    n.LeafNode? && n.scalar == Null
  }

  /** The effect of a request that the server carries out. */
  function Apply(cfg: Config, db: Db, req: Request): Db {
    if !req.target.Database? then db
    else
      match req.verb
      case PUT => db[req.target.path := req.body]
      case PATCH => db - Deleted(cfg, req.target.path, req.body)
      case DELETE => map p | p in db && p != req.target.path && !Below(p, req.target.path) :: db[p]
      case _ => db
  }

  /**
   * `body` lists the first stored names below `root` by key: each is stored, and what is stored
   * and smaller than one of them is listed too. Nothing is said about the order of the text.
   */
  ghost predicate ListsOldest(cfg: Config, body: Bytes, db: Db, root: Bytes) {
    var names := Listed(cfg, body);
    && (forall i | 0 <= i < |names| :: Child(root, names[i]) in db)
    && (forall y, i | 0 <= i < |names| && Child(root, y) in db && KeyLess(y, names[i]) :: y in names)
  }

  /** The server says what it did, and the response arrives in pieces. */
  ghost predicate HonestReply(r: Reply) {
    && OnlyData(r.events)
    && (Success(r.ok, r.status) ==> r.applied)
    && (r.ok && !Success(r.ok, r.status) ==> !r.applied)
  }

  predicate IsListing(req: Request, r: Reply) {
    r.ok && r.status == 200 && req.verb == GET_OLDEST && req.target.Database?
  }

  ghost predicate SoundReply(cfg: Config, db: Db, req: Request, r: Reply) {
    && HonestReply(r)
    && (IsListing(req, r) ==> Body(r.events) != [] && ListsOldest(cfg, Body(r.events), db, req.target.path))
  }

  /** What is taken for granted of the server. */
  ghost predicate Sound(cfg: Config, server: Server) {
    forall n, db, req :: SoundReply(cfg, db, req, server(n, db, req))
  }

  /**
   * What is taken for granted of the HTTP library: after a response that was not finished, the
   * next attempt opens a new connection.
   */
  ghost predicate Reconnects(server: Server) {
    forall n, m, db, req, db', req' | m == n + 1 && !server(n, db, req).finished :: server(m, db', req').connected
  }

  /** The receive buffer holds all of `body`. */
  predicate Fits(body: Bytes) {
    CString(Kept(body)) == body
  }

  ghost predicate StrictlyAscending(names: seq<Bytes>) {
    forall i, j | 0 <= i < j < |names| :: KeyLess(names[i], names[j])
  }

  /** Listings that do not fit the receive buffer have their names in key order. */
  ghost predicate OrdersLongListings(cfg: Config, server: Server) {
    forall n, db, req | IsListing(req, server(n, db, req)) ::
      var body := Body(server(n, db, req).events); Fits(body) || StrictlyAscending(Listed(cfg, body))
  }

  // ---------------------------------------------------------------- the client

  /** A client made by the retry loop has no event handler. */
  datatype Client = Missing | Deaf | Listening

  /**
   * The client's state, the database it writes to, and the requests sent so far with the reply
   * to each. `clock` numbers the attempts.
   */
  datatype App = App(
    clock: nat,
    client: Client,
    buffer: Buffer,
    auth: Bytes,
    refresh: Bytes,
    db: Db,
    sent: seq<Request>,
    replies: seq<Reply>)
  {
    predicate Valid() {
      buffer.Valid() && |sent| == |replies|
    }

    /** The response as a C string. */
    function Text(): Bytes {
      CString(buffer.cells)
    }
  }

  datatype Ret = Ret(ok: bool, status: int)

  const MAX_ATTEMPTS: nat := 5
  const NO_REPLY: Ret := Ret(false, -1)

  /** Receiving a reply. */
  function Receive(b: Buffer, r: Reply): (b': Buffer)
    requires b.Valid()
    ensures b'.Valid()
  {
    var full := Run(if r.connected then Step(b, Connected) else b, r.events);
    if r.finished then Step(full, Finish) else full
  }

  function Attempt(cfg: Config, s: App, req: Request, r: Reply): (s': App)
    requires s.Valid()
    ensures s'.Valid()
  {
    var client := if s.client == Missing then Deaf else s.client;
    App(s.clock + 1,
        client,
        if client == Listening then Receive(s.buffer, r) else s.buffer,
        s.auth,
        s.refresh,
        if r.applied then Apply(cfg, s.db, req) else s.db,
        s.sent + [req],
        s.replies + [r])
  }

  datatype Performed = Performed(app: App, ret: Ret)

  /** The retry loop of performRequest with `n` attempts left, `last` being the latest result. */
  function Perform(cfg: Config, server: Server, s: App, req: Request, n: nat, last: Ret): (p: Performed)
    requires s.Valid()
    ensures p.app.Valid()
    decreases n
  {
    if n == 0 then Performed(s, last)
    else
      var r := server(s.clock, s.db, req);
      if s.client == Missing && !r.clientReady then Performed(s.(clock := s.clock + 1), last)
      else
        var s' := Attempt(cfg, s, req, r);
        if Success(r.ok, r.status) then Performed(s', Ret(r.ok, r.status))
        else Perform(cfg, server, s', req, n - 1, Ret(r.ok, r.status))
  }

  function PerformRequest(cfg: Config, server: Server, s: App, req: Request): (p: Performed)
    requires s.Valid()
    ensures p.app.Valid()
  {
    Perform(cfg, server, s, req, MAX_ATTEMPTS, NO_REPLY)
  }

  function Clear(s: App): (s': App)
    requires s.Valid()
    ensures s'.Valid()
  {
    s.(buffer := EMPTY)
  }

  /** How the two token fields are read out of a response. */
  datatype Fields = Fields(access: Bytes -> Bytes, refresh: Bytes -> Bytes)

  datatype Outcome = Outcome(app: App, ok: bool)

  function GetAuthToken(cfg: Config, server: Server, f: Fields, s: App): (o: Outcome)
    requires s.Valid()
    ensures o.app.Valid()
  {
    var p := PerformRequest(cfg, server, s, Request(POST, TokenService, [], s.refresh));
    if p.ret == Ret(true, 200) then Outcome(p.app.(auth := f.access(p.app.Text())), true) else Outcome(p.app, false)
  }

  function GetRefreshToken(cfg: Config, server: Server, f: Fields, s: App): (o: Outcome)
    requires s.Valid()
    ensures o.app.Valid()
  {
    var p := PerformRequest(cfg, server, s, Request(POST, LoginService, [], []));
    if p.ret == Ret(true, 200) then Outcome(p.app.(refresh := f.refresh(p.app.Text())), true) else Outcome(p.app, false)
  }

  function Login(cfg: Config, server: Server, f: Fields, s: App): (o: Outcome)
    requires s.Valid()
    ensures o.app.Valid()
  {
    var first := GetRefreshToken(cfg, server, f, s);
    if !first.ok then first
    else
      var second := GetAuthToken(cfg, server, f, Clear(first.app));
      if !second.ok then second else Outcome(Clear(second.app), true)
  }

  function ForceRefreshAuth(cfg: Config, server: Server, f: Fields, s: App): (o: Outcome)
    requires s.Valid()
    ensures o.app.Valid()
  {
    var direct := GetAuthToken(cfg, server, f, s);
    if direct.ok then Outcome(Clear(direct.app), true) else Login(cfg, server, f, direct.app)
  }

  /** A request that is repeated once, with a new token, when the server answers 401. */
  function WithRefresh(cfg: Config, server: Server, f: Fields, s: App, verb: Verb, path: Bytes,
                       body: Bytes): (p: Performed)
    requires s.Valid()
    ensures p.app.Valid()
  {
    var first := PerformRequest(cfg, server, s, Request(verb, Database(path), s.auth, body));
    if first.ret.status == 401 then
      var renewed := ForceRefreshAuth(cfg, server, f, first.app).app;
      PerformRequest(cfg, server, renewed, Request(verb, Database(path), renewed.auth, body))
    else first
  }

  function PutData(cfg: Config, server: Server, f: Fields, s: App, path: Bytes, json: Bytes): (o: Outcome)
    requires s.Valid()
    ensures o.app.Valid()
  {
    var p := WithRefresh(cfg, server, f, s, PUT, path, json);
    Outcome(Clear(p.app), p.ret == Ret(true, 200))
  }

  function DeleteData(cfg: Config, server: Server, f: Fields, s: App, path: Bytes): (o: Outcome)
    requires s.Valid()
    ensures o.app.Valid()
  {
    var p := WithRefresh(cfg, server, f, s, DELETE, path, []);
    Outcome(Clear(p.app), Success(p.ret.ok, p.ret.status))
  }

  // ---------------------------------------------------------------- trimming

  /**
   * The names in a response, in key order; none if it is not an object. A response that is
   * nested too deeply stops the device: nothing is sent, as if it had no names.
   */
  function NamesIn(cfg: Config, text: Bytes): seq<Bytes> {
    var p := Parse(cfg, text, NULL_NODE);
    if p.status != Aborted && p.root.ObjNode? then KeysOf(p.root.members) else []
  }

  datatype Trimmed = Trimmed(app: App, count: int)

  function TrimOldestBatch(cfg: Config, server: Server, s: App, root: Bytes, batchSize: int): (t: Trimmed)
    requires s.Valid()
    ensures t.app.Valid()
  {
    if batchSize <= 0 then Trimmed(s, 0)
    else
      var got := PerformRequest(cfg, server, s, Request(GET_OLDEST, Database(root), s.auth, []));
      if got.ret != Ret(true, 200) then Trimmed(Clear(got.app), -1)
      else
        var names := NamesIn(cfg, got.app.Text());
        var cleared := Clear(got.app);
        if names == [] then Trimmed(cleared, 0)
        else
          var put := PerformRequest(cfg, server, cleared,
                                    Request(PATCH, Database(root), cleared.auth, PatchBody(names)));
          Trimmed(Clear(put.app), if Success(put.ret.ok, put.ret.status) then |names| else -2)
  }

  // ---------------------------------------------------------------- trimming by day

  function InsertName(x: Bytes, names: seq<Bytes>): (r: seq<Bytes>)
    ensures multiset(r) == multiset([x]) + multiset(names)
  {
    if names == [] then [x]
    else if KeyLess(x, names[0]) then [x] + names
    else
      assert names == [names[0]] + names[1..];
      [names[0]] + InsertName(x, names[1..])
  }

  /** std::sort of the names. */
  function SortNames(names: seq<Bytes>): (r: seq<Bytes>)
    ensures multiset(r) == multiset(names)
  {
    if names == [] then []
    else
      assert names == [names[0]] + names[1..];
      InsertName(names[0], SortNames(names[1..]))
  }

  /** Deletes the days one after the other, whether or not each succeeds. */
  function DeleteDays(cfg: Config, server: Server, f: Fields, s: App, root: Bytes, names: seq<Bytes>): (s': App)
    requires s.Valid()
    ensures s'.Valid()
    decreases |names|
  {
    if names == [] then s
    else
      var n := |names| - 1;
      DeleteData(cfg, server, f, DeleteDays(cfg, server, f, s, root, names[..n]), Child(root, names[n])).app
  }

  function TrimDays(cfg: Config, server: Server, f: Fields, s: App, root: Bytes, maxDays: int): (o: Outcome)
    requires s.Valid()
  {
    if maxDays <= 0 then Outcome(s, true)
    else
      var got := PerformRequest(cfg, server, s, Request(GET_SHALLOW, Database(root), s.auth, []));
      if got.ret != Ret(true, 200) then Outcome(Clear(got.app), false)
      else
        var names := NamesIn(cfg, got.app.Text());
        if |names| <= maxDays then Outcome(Clear(got.app), true)
        else
          assert |SortNames(names)| == |multiset(SortNames(names))| == |names|;
          Outcome(DeleteDays(cfg, server, f, Clear(got.app), root, SortNames(names)[..|names| - maxDays]), true)
  }
}
