/**
 * The client as the program has it: an object whose fields every request changes. Each method
 * is proved equal to the function of the same name in Firebase.dfy.
 */
module FirebaseClient {
  import opened Bytes
  import opened Values
  import opened ReaderSpec
  import ReaderClass
  import opened PatchBodies
  import opened ReceiveBuffers
  import opened Firebase

  class FirebaseApp {
    const cfg: Config
    const server: Server
    const fields: Fields
    const buffer: ResponseBuffer
    var clock: nat
    var client: Client
    var auth: Bytes
    var refresh: Bytes
    /** The far end of the connection. */
    var db: Db
    var sent: seq<Request>
    var replies: seq<Reply>

    constructor (cfg: Config, server: Server, fields: Fields, client: Client, db: Db)
      ensures Valid() && fresh(buffer) && fresh(buffer.cells)
      ensures this.cfg == cfg && this.server == server && this.fields == fields
      ensures View() == App(0, client, EMPTY, [], [], db, [], [])
    {
      this.cfg := cfg;
      this.server := server;
      this.fields := fields;
      this.buffer := new ResponseBuffer();
      this.clock := 0;
      this.client := client;
      this.auth := [];
      this.refresh := [];
      this.db := db;
      this.sent := [];
      this.replies := [];
    }

    ghost predicate Valid()
      reads this, buffer
    {
      buffer.Valid() && |sent| == |replies|
    }

    ghost function View(): (s: App)
      requires Valid()
      reads this, buffer, buffer.cells
      ensures s.Valid()
    {
      App(clock, client, buffer.View(), auth, refresh, db, sent, replies)
    }

    /** The events of one response. */
    method Deliver(r: Reply)
      requires Valid()
      modifies buffer, buffer.cells
      ensures Valid() && buffer.View() == Receive(old(buffer.View()), r)
    {
      hide Step;
      if r.connected {
        buffer.Handle(Connected);
      }
      ghost var start := buffer.View();
      for i := 0 to |r.events|
        invariant Valid() && buffer.View() == Run(start, r.events[..i])
      {
        buffer.Handle(r.events[i]);
        assert r.events[..i + 1][..i] == r.events[..i];
      }
      assert r.events[..|r.events|] == r.events;
      if r.finished {
        buffer.Handle(Finish);
      }
    }

    /** One attempt with a client that exists or is created for it. */
    method Exchange(req: Request, r: Reply)
      requires Valid()
      modifies this, buffer, buffer.cells
      ensures Valid() && View() == Attempt(cfg, old(View()), req, r)
    {
      hide Apply, Receive;
      clock := clock + 1;
      if client == Missing {
        client := Deaf;
      }
      sent := sent + [req];
      replies := replies + [r];
      if r.applied {
        db := Apply(cfg, db, req);
      }
      if client == Listening {
        Deliver(r);
      }
    }

    method PerformRequest(req: Request) returns (ok: bool, status: int)
      requires Valid()
      modifies this, buffer, buffer.cells
      ensures Valid() && Performed(View(), Ret(ok, status)) == Firebase.PerformRequest(cfg, server, old(View()), req)
    {
      hide Attempt;
      ok, status := false, -1;
      var attempt := 1;
      while attempt <= MAX_ATTEMPTS
        invariant Valid() && 1 <= attempt <= MAX_ATTEMPTS + 1
        invariant Perform(cfg, server, View(), req, MAX_ATTEMPTS + 1 - attempt, Ret(ok, status))
               == Firebase.PerformRequest(cfg, server, old(View()), req)
      {
        var r := server(clock, db, req);
        if client == Missing && !r.clientReady {
          clock := clock + 1;
          return;
        }
        Exchange(req, r);
        ok, status := r.ok, r.status;
        if ok && 200 <= status < 300 {
          return;
        }
        attempt := attempt + 1;
      }
    }

    method ClearHttpBuffer()
      requires Valid()
      modifies buffer, buffer.cells
      ensures Valid() && View() == Clear(old(View()))
    {
      buffer.Clear();
    }

    method GetAuthToken() returns (ok: bool)
      requires Valid()
      modifies this, buffer, buffer.cells
      ensures Valid() && Outcome(View(), ok) == Firebase.GetAuthToken(cfg, server, fields, old(View()))
    {
      hide Firebase.PerformRequest, CString;
      var err, status := PerformRequest(Request(POST, TokenService, [], refresh));
      ok := err && status == 200;
      if ok {
        var text := buffer.Text();
        auth := fields.access(text);
      }
    }

    method GetRefreshToken() returns (ok: bool)
      requires Valid()
      modifies this, buffer, buffer.cells
      ensures Valid() && Outcome(View(), ok) == Firebase.GetRefreshToken(cfg, server, fields, old(View()))
    {
      hide Firebase.PerformRequest, CString;
      var err, status := PerformRequest(Request(POST, LoginService, [], []));
      ok := err && status == 200;
      if ok {
        var text := buffer.Text();
        refresh := fields.refresh(text);
      }
    }

    method LoginUserAccount() returns (ok: bool)
      requires Valid()
      modifies this, buffer, buffer.cells
      ensures Valid() && Outcome(View(), ok) == Login(cfg, server, fields, old(View()))
    {
      hide Firebase.GetRefreshToken, Firebase.GetAuthToken;
      ok := GetRefreshToken();
      if !ok {
        return;
      }
      ClearHttpBuffer();
      ok := GetAuthToken();
      if !ok {
        return;
      }
      ClearHttpBuffer();
    }

    method ForceRefreshAuth() returns (ok: bool)
      requires Valid()
      modifies this, buffer, buffer.cells
      ensures Valid() && Outcome(View(), ok) == Firebase.ForceRefreshAuth(cfg, server, fields, old(View()))
    {
      hide Login, Firebase.GetAuthToken;
      ok := GetAuthToken();
      if ok {
        ClearHttpBuffer();
        return;
      }
      ok := LoginUserAccount();
    }

    method PutData(path: Bytes, json: Bytes) returns (ok: bool)
      requires Valid()
      modifies this, buffer, buffer.cells
      ensures Valid() && Outcome(View(), ok) == Firebase.PutData(cfg, server, fields, old(View()), path, json)
    {
      hide Firebase.PerformRequest, Firebase.ForceRefreshAuth;
      var err, status := PerformRequest(Request(PUT, Database(path), auth, json));
      if !(err && status == 200) && status == 401 {
        var _ := ForceRefreshAuth();
        err, status := PerformRequest(Request(PUT, Database(path), auth, json));
      }
      ClearHttpBuffer();
      ok := err && status == 200;
    }

    method DeleteData(path: Bytes) returns (ok: bool)
      requires Valid()
      modifies this, buffer, buffer.cells
      ensures Valid() && Outcome(View(), ok) == Firebase.DeleteData(cfg, server, fields, old(View()), path)
    {
      hide Firebase.PerformRequest, Firebase.ForceRefreshAuth;
      var err, status := PerformRequest(Request(DELETE, Database(path), auth, []));
      if !(err && 200 <= status < 300) && status == 401 {
        var _ := ForceRefreshAuth();
        err, status := PerformRequest(Request(DELETE, Database(path), auth, []));
      }
      ClearHttpBuffer();
      ok := err && 200 <= status < 300;
    }

    method TrimOldestBatch(root: Bytes, batchSize: int) returns (count: int)
      requires Valid()
      modifies this, buffer, buffer.cells
      ensures Valid() && Trimmed(View(), count) == Firebase.TrimOldestBatch(cfg, server, old(View()), root, batchSize)
    {
      hide Firebase.PerformRequest, CString, PatchBody, NamesIn;
      if batchSize <= 0 {
        return 0;
      }
      var err, status := PerformRequest(Request(GET_OLDEST, Database(root), auth, []));
      if !(err && status == 200) {
        ClearHttpBuffer();
        return -1;
      }
      var text := buffer.Text();
      var names := ReadNames(text);
      ClearHttpBuffer();
      if names == [] {
        return 0;
      }
      var body := BuildPatchBody(names);
      err, status := PerformRequest(Request(PATCH, Database(root), auth, body));
      ClearHttpBuffer();
      if !(err && 200 <= status < 300) {
        return -2;
      }
      return |names|;
    }

    method TrimDays(root: Bytes, maxDays: int) returns (ok: bool)
      requires Valid()
      modifies this, buffer, buffer.cells
      ensures Valid() && Outcome(View(), ok) == Firebase.TrimDays(cfg, server, fields, old(View()), root, maxDays)
    {
      hide Firebase.PerformRequest, CString, NamesIn, SortNames, Firebase.DeleteData, Child;
      if maxDays <= 0 {
        return true;
      }
      var err, status := PerformRequest(Request(GET_SHALLOW, Database(root), auth, []));
      if !(err && status == 200) {
        ClearHttpBuffer();
        return false;
      }
      var text := buffer.Text();
      var names := ReadNames(text);
      ClearHttpBuffer();
      if |names| <= maxDays {
        return true;
      }
      var days := SortNames(names);
      assert |days| == |multiset(days)| == |names|;
      var toDelete := |days| - maxDays;
      ghost var start := View();
      for i := 0 to toDelete
        invariant Valid() && View() == DeleteDays(cfg, server, fields, start, root, days[..i])
      {
        var _ := DeleteData(Child(root, days[i]));
        assert days[..i + 1][..i] == days[..i];
      }
      ok := true;
    }

    /** Parses a response with a Reader of its own and takes the member names of the root. */
    method ReadNames(text: Bytes) returns (names: seq<Bytes>)
      ensures names == NamesIn(cfg, text)
    {
      hide Parse;
      var reader := new ReaderClass.Reader(text, cfg);
      var status, root := reader.Parse(NULL_NODE);
      names := [];
      if status != Aborted && root.ObjNode? {
        names := KeysOf(root.members);
      }
    }
  }
}
