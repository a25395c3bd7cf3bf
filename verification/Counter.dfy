/**
 * What the item counter of the retention loop counts: one batch is described without the
 * loop's own helpers, and over runs the counter is a balance. If nothing goes wrong it is the
 * number of stored items.
 */
module Counters {
  import opened Bytes
  import opened ReaderSpec
  import opened PatchBodies
  import opened ReceiveBuffers
  import opened Firebase
  import opened FirebaseTheorems
  import opened TrimTheorems
  import opened Protocols
  import opened Timestamps
  import opened Retention

  // ---------------------------------------------------------------- one batch

  function PutOf(cfg: Config, server: Server, f: Fields, app: App, b: Batch): (o: Outcome)
    requires app.Valid() && Timestamps.Valid(b.time)
    ensures o.app.Valid()
  {
    PutData(cfg, server, f, app, Child(HISTORY, KeyOf(b.time)), b.json)
  }

  /** The number of items above which a batch trims, for an average size. */
  function HighWater(avgSize: real): int {
    (10485760.0 / (if avgSize > 1.0 then avgSize else 1.0)).Floor + 50
  }

  /** The counter after the PUT, in 32 bits. */
  function OneMore(approx: nat): nat {
    if approx + 1 == 0x1_0000_0000 then 0 else approx + 1
  }

  /**
   * One batch: a PUT under its time; nine tenths of the average and one tenth of the new
   * length; one more item; and exactly above the high-water mark a trim of 50, whose positive
   * result is taken off the counter.
   */
  lemma StoreBatchIs(cfg: Config, server: Server, f: Fields, k: Keeper, b: Batch)
    requires k.app.Valid() && Timestamps.Valid(b.time) && k.approx < 0x1_0000_0000
    ensures var k' := StoreBatch(cfg, server, f, k, b);
            var put := PutOf(cfg, server, f, k.app, b).app;
            var t := TrimOldestBatch(cfg, server, put, HISTORY, 50);
            var n := OneMore(k.approx);
            && 10.0 * k'.avgSize == 9.0 * k.avgSize + |b.json| as real
            && if n <= HighWater(k'.avgSize) then k'.app == put && k'.approx == n
               else
                 && k'.app == t.app
                 && (t.count <= 0 ==> k'.approx == n)
                 && (0 < t.count <= n ==> k'.approx + t.count == n)
                 && (t.count > n ==> k'.approx == 0)
  {
    hide PutData, TrimOldestBatch, MaxItems, HighWater, NextAverage, Counted, OneMore, Uncount;
    var avg := NextAverage(k.avgSize, |b.json|);
    var put := PutOf(cfg, server, f, k.app, b).app;
    AverageMoves(k.avgSize, |b.json|);
    CountsOne(k.approx);
    HighWaterIs(avg);
    TakesOff(OneMore(k.approx), TrimOldestBatch(cfg, server, put, HISTORY, 50).count);
  }

  lemma AverageMoves(avgSize: real, len: nat)
    ensures 10.0 * NextAverage(avgSize, len) == 9.0 * avgSize + len as real
  {
  }

  lemma CountsOne(approx: nat)
    requires approx < 0x1_0000_0000
    ensures Counted(approx) == OneMore(approx)
  {
  }

  lemma HighWaterIs(avgSize: real)
    ensures MaxItems(avgSize) + 50 == HighWater(avgSize)
  {
  }

  lemma TakesOff(n: nat, count: int)
    ensures var left := Uncount(n, count);
            && (count <= 0 ==> left == n)
            && (0 < count <= n ==> left + count == n)
            && (count > n ==> left == 0)
  {
  }

  // ---------------------------------------------------------------- the counter as a balance

  /** The result of the trim that a batch triggers; 0 if it triggers none. */
  function TrimResult(cfg: Config, server: Server, f: Fields, k: Keeper, b: Batch): int
    requires k.app.Valid() && Timestamps.Valid(b.time)
  {
    if OneMore(k.approx) <= HighWater((9.0 * k.avgSize + |b.json| as real) / 10.0) then 0
    else TrimOldestBatch(cfg, server, PutOf(cfg, server, f, k.app, b).app, HISTORY, 50).count
  }

  /** The sum of the positive trim results of a run. */
  function Reported(cfg: Config, server: Server, f: Fields, k: Keeper, bs: seq<Batch>): (n: nat)
    requires k.app.Valid() && Timed(bs)
    decreases |bs|
  {
    if bs == [] then 0
    else
      assert bs[|bs| - 1] in bs;
      var front, b := bs[..|bs| - 1], bs[|bs| - 1];
      var result := TrimResult(cfg, server, f, RunBatches(cfg, server, f, k, front), b);
      Reported(cfg, server, f, k, front) + if result > 0 then result else 0
  }

  lemma TrimCountsItems(cfg: Config, server: Server, s: App)
    requires Sound(cfg, server) && Reconnects(server) && s.Valid() && s.buffer == EMPTY && PlainStored(s.db, HISTORY)
    ensures var t := TrimOldestBatch(cfg, server, s, HISTORY, 50);
            && t.count <= |Items(s.db)|
            && (t.count > 0 ==> |Items(t.app.db)| == |Items(s.db)| - t.count)
            && (t.count == 0 || t.count == -1 ==> t.app.db == s.db)
            && -2 <= t.count
            && Items(t.app.db) <= Items(s.db)
  {
    hide TrimOldestBatch, Children, PlainStored, Items, Sound, Reconnects, AreStored, TrimRequests;
    var names := TrimDeletesOldest(cfg, server, s, HISTORY, 50);
    TrimCounts(s.db, names);
    ItemsShrink(s.db, Children(HISTORY, names));
  }

  lemma ItemsShrink(db: Db, gone: set<Bytes>)
    ensures Items(db - gone) <= Items(db)
  {
    hide Below;
  }

  lemma BatchBalance(cfg: Config, server: Server, f: Fields, k: Keeper, b: Batch)
    requires Sound(cfg, server) && Reconnects(server) && Safe(k) && Timestamps.Valid(b.time)
    requires k.approx + 1 < 0x1_0000_0000
    ensures var result := TrimResult(cfg, server, f, k, b);
            StoreBatch(cfg, server, f, k, b).approx == k.approx + 1 - if result > 0 then result else 0
  {
    hide TrimOldestBatch, StoreBatch, Items, PlainStored, Sound, Reconnects, HighWater, PutData;
    StoreBatchIs(cfg, server, f, k, b);
    StoredIsSafe(cfg, server, f, k, b);
    var put := PutOf(cfg, server, f, k.app, b).app;
    TrimCountsItems(cfg, server, put);
    TenthOf(StoreBatch(cfg, server, f, k, b).avgSize, 9.0 * k.avgSize + |b.json| as real);
  }

  lemma TenthOf(x: real, y: real)
    requires 10.0 * x == y
    ensures y / 10.0 == x
  {
  }

  /** Over every run the counter is what it was, plus the batches, less the positive trim results. */
  lemma {:induction false} CounterIsBalance(cfg: Config, server: Server, f: Fields, k: Keeper, bs: seq<Batch>)
    requires Sound(cfg, server) && Reconnects(server) && Safe(k) && Timed(bs) && k.approx + |bs| < 0x1_0000_0000
    ensures RunBatches(cfg, server, f, k, bs).approx + Reported(cfg, server, f, k, bs) == k.approx + |bs|
    decreases |bs|
  {
    hide StoreBatch, Sound, Reconnects, Items, PlainStored, TrimResult;
    if bs != [] {
      assert bs[|bs| - 1] in bs;
      var front := bs[..|bs| - 1];
      CounterIsBalance(cfg, server, f, k, front);
      RunIsSafe(cfg, server, f, k, front);
      BatchBalance(cfg, server, f, RunBatches(cfg, server, f, k, front), bs[|bs| - 1]);
    }
  }

  // ---------------------------------------------------------------- the counter as the number of items

  /** Every PUT of the run reported success. */
  ghost predicate PutsSucceed(cfg: Config, server: Server, f: Fields, k: Keeper, bs: seq<Batch>)
    requires k.app.Valid() && Timed(bs)
    decreases |bs|
  {
    bs == [] ||
    (assert bs[|bs| - 1] in bs;
     var front, b := bs[..|bs| - 1], bs[|bs| - 1];
     && PutsSucceed(cfg, server, f, k, front)
     && PutOf(cfg, server, f, RunBatches(cfg, server, f, k, front).app, b).ok)
  }

  predicate DistinctTimes(bs: seq<Batch>) {
    forall i, j | 0 <= i < j < |bs| :: bs[i].time != bs[j].time
  }

  /** Every stored item is one of these batches. */
  ghost predicate ItemsAre(db: Db, bs: seq<Batch>)
    requires Timed(bs)
  {
    forall p | p in Items(db) :: exists i :: 0 <= i < |bs| && IsPathOf(p, bs[i])
  }

  predicate IsPathOf(p: Bytes, b: Batch) {
    Timestamps.Valid(b.time) && p == Child(HISTORY, KeyOf(b.time))
  }

  /** A PATCH that fails on a server whose replies all arrive deletes nothing. */
  lemma FailedRequestChangesNothing(cfg: Config, server: Server, s: App, req: Request)
    requires Sound(cfg, server) && Reliable(server) && s.Valid() && req.target.Database?
    ensures var p := PerformRequest(cfg, server, s, req);
            !Success(p.ret.ok, p.ret.status) ==> p.app.db == s.db
  {
    hide PerformRequest, Sound, Reliable, Apply, FromServer;
    var p := PerformRequest(cfg, server, s, req);
    if CanSend(server, s, req) {
      RequestExactly(cfg, server, s, req);
      FiveAttemptsOrSuccess(cfg, server, s, req);
      RequestIsFromServer(cfg, server, s, req);
      RepliesAreHonest(cfg, server, p.app, |s.sent|);
      RepliesAreReported(server, p.app, |s.sent|);
    } else {
      NothingIsSent(cfg, server, s, req);
    }
  }

  lemma FailedTrimChangesNothing(cfg: Config, server: Server, s: App)
    requires Sound(cfg, server) && Reliable(server) && s.Valid()
    ensures var t := TrimOldestBatch(cfg, server, s, HISTORY, 50);
            t.count == -2 ==> t.app.db == s.db
  {
    hide PerformRequest, Sound, Reliable, NamesIn, PatchBody, CString;
    var get := Request(GET_OLDEST, Database(HISTORY), s.auth, []);
    var got := PerformRequest(cfg, server, s, get);
    GetChangesNothing(cfg, server, s, get);
    var names := NamesIn(cfg, got.app.Text());
    FailedRequestChangesNothing(cfg, server, Clear(got.app),
                                Request(PATCH, Database(HISTORY), got.app.auth, PatchBody(names)));
  }

  lemma GetChangesNothing(cfg: Config, server: Server, s: App, req: Request)
    requires s.Valid() && req.verb == GET_OLDEST && req.target.Database?
    ensures PerformRequest(cfg, server, s, req).app.db == s.db
  {
    hide PerformRequest;
    RequestSettles(cfg, server, s, req);
  }

  lemma NewItem(db: Db, path: Bytes, json: Bytes)
    requires Below(path, HISTORY) && path !in db
    ensures Items(db[path := json]) == Items(db) + {path} && path !in Items(db)
  {
    hide Below;
  }

  lemma NotYetStored(db: Db, bs: seq<Batch>, b: Batch)
    requires Timed(bs) && Timestamps.Valid(b.time) && ItemsAre(db, bs)
    requires forall i | 0 <= i < |bs| :: bs[i].time != b.time
    ensures Child(HISTORY, KeyOf(b.time)) !in Items(db)
  {
    hide KeyOf, Child, Items;
    var p := Child(HISTORY, KeyOf(b.time));
    if p in Items(db) {
      var i :| 0 <= i < |bs| && IsPathOf(p, bs[i]);
      ChildInjective(HISTORY, KeyOf(b.time), KeyOf(bs[i].time));
      KeysAreChronological(b.time, bs[i].time);
    }
  }

  lemma StoreIsCounted(cfg: Config, server: Server, f: Fields, k: Keeper, bs: seq<Batch>, b: Batch)
    requires Sound(cfg, server) && Reconnects(server) && Reliable(server) && Safe(k)
    requires Timed(bs) && Timestamps.Valid(b.time) && k.approx + 1 < 0x1_0000_0000
    requires ItemsAre(k.app.db, bs) && forall i | 0 <= i < |bs| :: bs[i].time != b.time
    requires k.approx == |Items(k.app.db)| && PutOf(cfg, server, f, k.app, b).ok
    ensures Timed(bs + [b])
    ensures var k' := StoreBatch(cfg, server, f, k, b);
            k'.approx == |Items(k'.app.db)| && ItemsAre(k'.app.db, bs + [b])
  {
    hide TrimOldestBatch, StoreBatch, Items, PlainStored, Sound, Reconnects, Reliable, HighWater, PutData, KeyOf, Child,
      Schedule, Below;
    var path := Child(HISTORY, KeyOf(b.time));
    var put := PutOf(cfg, server, f, k.app, b).app;
    PutIsAllOrNothing(cfg, server, f, k.app, path, b.json);
    NotYetStored(k.app.db, bs, b);
    ChildIsBelow(KeyOf(b.time));
    StoredHere(k.app.db, path);
    NewItem(k.app.db, path, b.json);
    assert |Items(put.db)| == k.approx + 1;
    ItemsGrow(k.app.db, put.db, bs, b, path);
    StoredIsSafe(cfg, server, f, k, b);
    StoreBatchIs(cfg, server, f, k, b);
    TrimCountsItems(cfg, server, put);
    FailedTrimChangesNothing(cfg, server, put);
    FewerItemsAre(put.db, StoreBatch(cfg, server, f, k, b).app.db, bs + [b]);
  }

  lemma StoredHere(db: Db, path: Bytes)
    requires Below(path, HISTORY) && path !in Items(db)
    ensures path !in db
  {
    hide Below;
  }

  lemma ItemsGrow(db: Db, db': Db, bs: seq<Batch>, b: Batch, path: Bytes)
    requires Timed(bs) && Timed(bs + [b]) && ItemsAre(db, bs) && Items(db') == Items(db) + {path} && IsPathOf(path, b)
    ensures ItemsAre(db', bs + [b])
  {
    hide Items, IsPathOf;
    var all := bs + [b];
    forall p | p in Items(db') ensures exists i :: 0 <= i < |all| && IsPathOf(p, all[i]) {
      if p in Items(db) {
        var i :| 0 <= i < |bs| && IsPathOf(p, bs[i]);
        assert all[i] == bs[i];
      } else {
        assert all[|bs|] == b;
      }
    }
  }

  lemma FewerItemsAre(db: Db, db': Db, bs: seq<Batch>)
    requires Timed(bs) && ItemsAre(db, bs) && Items(db') <= Items(db)
    ensures ItemsAre(db', bs)
  {
    hide Items, IsPathOf;
  }

  lemma {:induction false} RunIsCounted(cfg: Config, server: Server, f: Fields, k: Keeper, bs: seq<Batch>)
    requires Sound(cfg, server) && Reconnects(server) && Reliable(server) && Safe(k)
    requires Timed(bs) && DistinctTimes(bs) && k.approx == 0 && Items(k.app.db) == {} && |bs| < 0x1_0000_0000
    requires PutsSucceed(cfg, server, f, k, bs)
    ensures var k' := RunBatches(cfg, server, f, k, bs);
            k'.approx == |Items(k'.app.db)| && ItemsAre(k'.app.db, bs)
    decreases |bs|
  {
    hide StoreBatch, Sound, Reconnects, Reliable, Items, PlainStored, PutOf;
    if bs != [] {
      assert bs[|bs| - 1] in bs;
      var front, b := bs[..|bs| - 1], bs[|bs| - 1];
      RunIsCounted(cfg, server, f, k, front);
      RunIsSafe(cfg, server, f, k, front);
      assert front + [b] == bs;
      StoreIsCounted(cfg, server, f, RunBatches(cfg, server, f, k, front), front, b);
    }
  }

  /**
   * From an empty history, on a server whose replies all arrive, if every PUT succeeds and no
   * two batches have the same time: the counter is exactly the number of stored items.
   */
  lemma CounterIsExact(cfg: Config, server: Server, f: Fields, s: App, bs: seq<Batch>)
    requires Sound(cfg, server) && Reconnects(server) && Reliable(server) && s.Valid()
    requires Items(Started(cfg, server, f, s).app.db) == {}
    requires Timed(bs) && DistinctTimes(bs) && |bs| < 0x1_0000_0000
    requires PutsSucceed(cfg, server, f, Started(cfg, server, f, s), bs)
    ensures var k := RunBatches(cfg, server, f, Started(cfg, server, f, s), bs);
            k.approx == |Items(k.app.db)|
  {
    hide DeleteData, Sound, Reconnects, Reliable, Items, PlainStored, RunBatches, PutsSucceed;
    StartIsSafe(cfg, server, f, s);
    RunIsCounted(cfg, server, f, Started(cfg, server, f, s), bs);
  }
}
