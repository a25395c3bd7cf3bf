/**
 * The retention half of sensor_task: every batch is stored under its time, and a counter on
 * the device stands in for the number of stored items. Over every run the counter is never
 * below the truth, and it stays bounded as long as trimming deletes something.
 */
module Retention {
  import opened Bytes
  import opened Values
  import opened ReaderSpec
  import opened PatchBodies
  import opened ReceiveBuffers
  import opened Firebase
  import opened FirebaseTheorems
  import opened TrimTheorems
  import opened FirebaseClient
  import opened Timestamps

  const MAX_BYTES: real := 10485760.0
  const TRIM_BATCH: nat := 50
  const UINT32: nat := 0x1_0000_0000

  /** "/historial_mediciones" */
  const HISTORY: Bytes := [SLASH, 0x68, 0x69, 0x73, 0x74, 0x6F, 0x72, 0x69, 0x61, 0x6C, UNDERSCORE,
                           0x6D, 0x65, 0x64, 0x69, 0x63, 0x69, 0x6F, 0x6E, 0x65, 0x73]

  // ---------------------------------------------------------------- one batch

  datatype Keeper = Keeper(app: App, avgSize: real, approx: nat)

  /** What one batch brings: its time and its JSON text. */
  datatype Batch = Batch(time: Time, json: Bytes)

  function MaxItems(avgSize: real): (n: nat)
    ensures n <= 10485760
  {
    var d := if avgSize > 1.0 then avgSize else 1.0;
    QuotientBound(d);
    (MAX_BYTES / d).Floor
  }

  lemma QuotientBound(d: real)
    requires d >= 1.0
    ensures 0.0 <= MAX_BYTES / d <= MAX_BYTES
  {
  }

  function NextAverage(avgSize: real, len: nat): real {
    avgSize * 0.9 + 0.1 * len as real
  }

  function Counted(approx: nat): nat {
    (approx + 1) % UINT32
  }

  predicate Triggers(avgSize: real, approx: nat) {
    approx > MaxItems(avgSize) + TRIM_BATCH
  }

  function Uncount(approx: nat, deleted: int): nat {
    if deleted <= 0 then approx
    else if approx > deleted then approx - deleted
    else 0
  }

  function Stored(cfg: Config, server: Server, f: Fields, app: App, b: Batch): (app': App)
    requires app.Valid() && Valid(b.time)
    ensures app'.Valid()
  {
    PutData(cfg, server, f, app, Child(HISTORY, KeyOf(b.time)), b.json).app
  }

  function StoreBatch(cfg: Config, server: Server, f: Fields, k: Keeper, b: Batch): (k': Keeper)
    requires k.app.Valid() && Valid(b.time)
  {
    var app := Stored(cfg, server, f, k.app, b);
    var avg := NextAverage(k.avgSize, |b.json|);
    var approx := Counted(k.approx);
    if Triggers(avg, approx) then
      var t := TrimOldestBatch(cfg, server, app, HISTORY, TRIM_BATCH);
      Keeper(t.app, avg, Uncount(approx, t.count))
    else Keeper(app, avg, approx)
  }

  class RetentionLoop {
    const app: FirebaseApp
    var avgSize: real
    var approxCount: nat

    constructor (app: FirebaseApp)
      requires app.Valid()
      ensures this.app == app && View() == Keeper(app.View(), 256.0, 0)
    {
      this.app := app;
      avgSize := 256.0;
      approxCount := 0;
    }

    ghost function View(): Keeper
      requires app.Valid()
      reads this, app, app.buffer, app.buffer.cells
    {
      Keeper(app.View(), avgSize, approxCount)
    }

    /** From the PUT to the end of the retention block. */
    method Store(b: Batch)
      requires app.Valid() && Valid(b.time)
      modifies this, app, app.buffer, app.buffer.cells
      ensures app.Valid() && View() == StoreBatch(app.cfg, app.server, app.fields, old(View()), b)
    {
      hide PutData, TrimOldestBatch, MaxItems;
      var _ := app.PutData(Child(HISTORY, KeyOf(b.time)), b.json);
      avgSize := avgSize * 0.9 + 0.1 * |b.json| as real;
      approxCount := (approxCount + 1) % UINT32;
      var maxItems := MaxItems(avgSize);
      var highWater := maxItems + 50;
      if approxCount > highWater {
        var deleted := app.TrimOldestBatch(HISTORY, 50);
        if deleted > 0 {
          approxCount := if approxCount > deleted then approxCount - deleted else 0;
        }
      }
    }
  }

  // ---------------------------------------------------------------- counting

  /** Everything stored below the history. */
  function Items(db: Db): set<Bytes> {
    set p | p in db && Below(p, HISTORY)
  }

  lemma ChildIsBelow(name: Bytes)
    ensures Below(Child(HISTORY, name), HISTORY)
  {
  }

  lemma PutCounts(db: Db, name: Bytes, json: Bytes)
    ensures |Items(db[Child(HISTORY, name) := json])| <= |Items(db)| + 1
  {
    hide Child, Below;
    var p := Child(HISTORY, name);
    assert Items(db[p := json]) <= Items(db) + {p};
    SubsetCount(Items(db[p := json]), Items(db) + {p});
  }

  lemma {:induction false} SubsetCount<T>(a: set<T>, b: set<T>)
    requires a <= b
    ensures |a| <= |b|
  {
    if a != {} {
      var x :| x in a;
      SubsetCount(a - {x}, b - {x});
    }
  }

  lemma TrimCounts(db: Db, names: seq<Bytes>)
    requires |Children(HISTORY, names)| == |names|
    requires forall x | x in Children(HISTORY, names) :: x in db
    ensures |Items(db - Children(HISTORY, names))| == |Items(db)| - |names|
  {
    hide Child, Below;
    var gone := Children(HISTORY, names);
    forall x | x in gone ensures x in Items(db) {
      var i :| 0 <= i < |names| && x == Child(HISTORY, names[i]);
      ChildIsBelow(names[i]);
    }
    assert Items(db - gone) == Items(db) - gone;
  }

  // ---------------------------------------------------------------- the invariant

  /** The counter is at least the number of items, and the protocol state is as trimming needs it. */
  ghost predicate Safe(k: Keeper) {
    && k.app.Valid() && k.app.buffer == EMPTY
    && PlainStored(k.app.db, HISTORY)
    && |Items(k.app.db)| <= k.approx
  }

  lemma PutStaysPlain(db: Db, t: Time, json: Bytes)
    requires PlainStored(db, HISTORY) && Valid(t)
    ensures PlainStored(db[Child(HISTORY, KeyOf(t)) := json], HISTORY)
  {
    hide KeyOf, Child, PlainName;
    KeysArePlain(t);
    forall y | Child(HISTORY, y) in db[Child(HISTORY, KeyOf(t)) := json] ensures PlainName(y) {
      if Child(HISTORY, y) == Child(HISTORY, KeyOf(t)) {
        ChildInjective(HISTORY, y, KeyOf(t));
      }
    }
  }

  lemma StoredIsSafe(cfg: Config, server: Server, f: Fields, k: Keeper, b: Batch)
    requires Sound(cfg, server) && Safe(k) && Valid(b.time) && k.approx + 1 < UINT32
    ensures Safe(Keeper(Stored(cfg, server, f, k.app, b), NextAverage(k.avgSize, |b.json|), Counted(k.approx)))
  {
    hide PutData, Child, KeyOf, PlainStored, Items, Sound, Schedule;
    PutIsAllOrNothing(cfg, server, f, k.app, Child(HISTORY, KeyOf(b.time)), b.json);
    PutCounts(k.app.db, KeyOf(b.time), b.json);
    PutStaysPlain(k.app.db, b.time, b.json);
  }

  lemma TrimStaysPlain(db: Db, gone: set<Bytes>)
    requires PlainStored(db, HISTORY)
    ensures PlainStored(db - gone, HISTORY)
  {
    hide Child, PlainName;
  }

  lemma TrimIsSafe(cfg: Config, server: Server, k: Keeper)
    requires Sound(cfg, server) && Reconnects(server) && Safe(k)
    ensures var t := TrimOldestBatch(cfg, server, k.app, HISTORY, TRIM_BATCH);
            Safe(Keeper(t.app, k.avgSize, Uncount(k.approx, t.count)))
  {
    hide TrimOldestBatch, Children, PlainStored, Items, Sound, Reconnects, AreStored, TrimRequests;
    var names := TrimDeletesOldest(cfg, server, k.app, HISTORY, TRIM_BATCH);
    TrimCounts(k.app.db, names);
    TrimStaysPlain(k.app.db, Children(HISTORY, names));
  }

  lemma StepIsSafe(cfg: Config, server: Server, f: Fields, k: Keeper, b: Batch)
    requires Sound(cfg, server) && Reconnects(server) && Safe(k) && Valid(b.time) && k.approx + 1 < UINT32
    ensures Safe(StoreBatch(cfg, server, f, k, b)) && StoreBatch(cfg, server, f, k, b).approx <= k.approx + 1
  {
    hide Stored, TrimOldestBatch, MaxItems, Sound, Reconnects, Items, PlainStored;
    StoredIsSafe(cfg, server, f, k, b);
    var k1 := Keeper(Stored(cfg, server, f, k.app, b), NextAverage(k.avgSize, |b.json|), Counted(k.approx));
    TrimIsSafe(cfg, server, k1);
  }

  // ---------------------------------------------------------------- runs

  predicate Timed(bs: seq<Batch>) {
    forall b | b in bs :: Valid(b.time)
  }

  function RunBatches(cfg: Config, server: Server, f: Fields, k: Keeper, bs: seq<Batch>): (k': Keeper)
    requires k.app.Valid() && Timed(bs)
    ensures k'.app.Valid()
    decreases |bs|
  {
    if bs == [] then k
    else
      assert bs[|bs| - 1] in bs;
      StoreBatch(cfg, server, f, RunBatches(cfg, server, f, k, bs[..|bs| - 1]), bs[|bs| - 1])
  }

  lemma {:induction false} RunIsSafe(cfg: Config, server: Server, f: Fields, k: Keeper, bs: seq<Batch>)
    requires Sound(cfg, server) && Reconnects(server) && Safe(k) && Timed(bs) && k.approx + |bs| < UINT32
    ensures var k' := RunBatches(cfg, server, f, k, bs); Safe(k') && k'.approx <= k.approx + |bs|
    decreases |bs|
  {
    hide StoreBatch, Sound, Reconnects, Items, PlainStored;
    if bs != [] {
      assert bs[|bs| - 1] in bs;
      RunIsSafe(cfg, server, f, k, bs[..|bs| - 1]);
      StepIsSafe(cfg, server, f, RunBatches(cfg, server, f, k, bs[..|bs| - 1]), bs[|bs| - 1]);
    }
  }

  /** What the device holds after the delete it starts with. */
  function Started(cfg: Config, server: Server, f: Fields, s: App): Keeper
    requires s.Valid()
  {
    Keeper(DeleteData(cfg, server, f, s, HISTORY).app, 256.0, 0)
  }

  lemma StartIsSafe(cfg: Config, server: Server, f: Fields, s: App)
    requires s.Valid() && Items(Started(cfg, server, f, s).app.db) == {}
    ensures Safe(Started(cfg, server, f, s))
  {
    hide WithRefresh, Below, PlainName;
    var k := Started(cfg, server, f, s);
    forall y ensures Child(HISTORY, y) !in k.app.db {
      ChildIsBelow(y);
      assert Child(HISTORY, y) !in Items(k.app.db);
    }
  }

  ghost predicate NeverTooLow(cfg: Config, server: Server, f: Fields, k: Keeper, bs: seq<Batch>)
    requires k.app.Valid() && Timed(bs)
  {
    var k' := RunBatches(cfg, server, f, k, bs);
    |Items(k'.app.db)| <= k'.approx
  }

  /**
   * Over all runs, whatever becomes of each PUT, GET and PATCH, no more items are stored than
   * the device believes, if and only if the history was empty after the delete at the start.
   */
  lemma CounterIsRightIff(cfg: Config, server: Server, f: Fields, s: App)
    requires Sound(cfg, server) && Reconnects(server) && s.Valid()
    ensures var k := Started(cfg, server, f, s);
            (forall bs | Timed(bs) && |bs| < UINT32 :: NeverTooLow(cfg, server, f, k, bs)) <==> Items(k.app.db) == {}
  {
    hide DeleteData, Sound, Reconnects, Items, RunBatches;
    var k := Started(cfg, server, f, s);
    if Items(k.app.db) == {} {
      StartIsSafe(cfg, server, f, s);
      forall bs | Timed(bs) && |bs| < UINT32 ensures NeverTooLow(cfg, server, f, k, bs) {
        RunIsSafe(cfg, server, f, k, bs);
      }
    } else {
      EmptyRun(cfg, server, f, k);
      assert |Items(k.app.db)| > 0;
      assert Timed([]) && !NeverTooLow(cfg, server, f, k, []);
    }
  }

  lemma EmptyRun(cfg: Config, server: Server, f: Fields, k: Keeper)
    requires k.app.Valid()
    ensures RunBatches(cfg, server, f, k, []) == k
  {
  }

  /**
   * When the history is empty after the delete at the start: exactly when it was empty before or
   * an attempt of the delete was applied. A delete that reports success was applied; one that
   * reports failure was applied only if a reply was lost.
   */
  lemma StartsEmptyIff(cfg: Config, server: Server, f: Fields, s: App)
    requires Sound(cfg, server) && s.Valid()
    ensures var o := DeleteData(cfg, server, f, s, HISTORY);
            && (Items(Started(cfg, server, f, s).app.db) == {} <==> Items(s.db) == {} || AppliedSince(o.app, |s.sent|))
            && (o.ok ==> Items(Started(cfg, server, f, s).app.db) == {})
            && (!o.ok && AppliedSince(o.app, |s.sent|) ==>
                  exists i :: |s.sent| <= i < |o.app.sent| && o.app.replies[i].applied && !o.app.replies[i].ok)
  {
    hide DeleteData, Sound, Below;
    DeleteExactly(cfg, server, f, s, HISTORY);
    DeleteIsAllOrNothing(cfg, server, f, s, HISTORY);
    var o := DeleteData(cfg, server, f, s, HISTORY);
    DeletedItems(cfg, s.db, s.auth);
    if !o.ok && AppliedSince(o.app, |s.sent|) {
      var i :| |s.sent| <= i < |o.app.sent| && o.app.sent[i].target.Database? && o.app.replies[i].applied;
      assert !o.app.replies[i].ok;
    }
  }

  lemma DeletedItems(cfg: Config, db: Db, auth: Bytes)
    ensures Items(Apply(cfg, db, Request(DELETE, Database(HISTORY), auth, []))) == {}
  {
    hide Below;
  }

  /** If the delete at the start succeeded, the counter is never too low. */
  lemma CounterIsNeverTooLow(cfg: Config, server: Server, f: Fields, s: App, bs: seq<Batch>)
    requires Sound(cfg, server) && Reconnects(server) && s.Valid() && Timed(bs) && |bs| < UINT32
    requires DeleteData(cfg, server, f, s, HISTORY).ok
    ensures NeverTooLow(cfg, server, f, Started(cfg, server, f, s), bs)
  {
    hide DeleteData, Sound, Reconnects, Items, RunBatches, NeverTooLow;
    StartsEmptyIff(cfg, server, f, s);
    CounterIsRightIff(cfg, server, f, s);
  }

  // ---------------------------------------------------------------- the bound

  function Bound(lo: real): nat
    requires lo >= 1.0
  {
    MaxItems(lo) + TRIM_BATCH
  }

  lemma QuotientAntitone(a: real, b: real)
    requires 1.0 <= a <= b
    ensures MAX_BYTES / b <= MAX_BYTES / a
  {
    var q, r := MAX_BYTES / a, MAX_BYTES / b;
    assert q * a == MAX_BYTES && r * b == MAX_BYTES;
    QuotientBound(b);
    ScaleUp(r, a, b);
    assert (q - r) * a == q * a - r * a;
    SignOfFactor(q - r, a);
  }

  lemma ScaleUp(r: real, a: real, b: real)
    requires r >= 0.0 && a <= b
    ensures r * a <= r * b
  {
  }

  lemma SignOfFactor(d: real, a: real)
    requires a > 0.0 && d * a >= 0.0
    ensures d >= 0.0
  {
  }

  lemma MaxItemsAntitone(a: real, b: real)
    requires a <= b
    ensures MaxItems(b) <= MaxItems(a)
  {
    QuotientAntitone(if a > 1.0 then a else 1.0, if b > 1.0 then b else 1.0);
  }

  /** Every trim that the run triggers deletes something. */
  ghost predicate TrimsDelete(cfg: Config, server: Server, f: Fields, k: Keeper, bs: seq<Batch>)
    requires k.app.Valid() && Timed(bs)
    decreases |bs|
  {
    bs == [] ||
    (assert bs[|bs| - 1] in bs;
     var front, b := bs[..|bs| - 1], bs[|bs| - 1];
     var before := RunBatches(cfg, server, f, k, front);
     && TrimsDelete(cfg, server, f, k, front)
     && (Triggers(NextAverage(before.avgSize, |b.json|), Counted(before.approx)) ==>
           TrimOldestBatch(cfg, server, Stored(cfg, server, f, before.app, b), HISTORY, TRIM_BATCH).count > 0))
  }

  lemma StepIsBounded(cfg: Config, server: Server, f: Fields, k: Keeper, b: Batch, lo: real)
    requires k.app.Valid() && Valid(b.time) && lo >= 1.0
    requires k.avgSize >= lo && |b.json| as real >= lo && k.approx <= Bound(lo)
    requires Triggers(NextAverage(k.avgSize, |b.json|), Counted(k.approx)) ==>
               TrimOldestBatch(cfg, server, Stored(cfg, server, f, k.app, b), HISTORY, TRIM_BATCH).count > 0
    ensures var k' := StoreBatch(cfg, server, f, k, b); k'.avgSize >= lo && k'.approx <= Bound(lo)
  {
    hide TrimOldestBatch, Stored, MaxItems;
    var avg := NextAverage(k.avgSize, |b.json|);
    assert avg >= lo;
    MaxItemsAntitone(lo, avg);
    assert Counted(k.approx) == k.approx + 1;
  }

  /**
   * If every text is at least `lo` long and every trim that is triggered deletes something, the
   * counter never exceeds floor(10 MiB / lo) + 50.
   */
  lemma {:induction false} CounterIsBounded(cfg: Config, server: Server, f: Fields, k: Keeper, bs: seq<Batch>, lo: real)
    requires k.app.Valid() && Timed(bs) && 1.0 <= lo <= 256.0
    requires k.avgSize >= lo && k.approx <= Bound(lo)
    requires forall b | b in bs :: |b.json| as real >= lo
    requires TrimsDelete(cfg, server, f, k, bs)
    ensures var k' := RunBatches(cfg, server, f, k, bs);
            k'.avgSize >= lo && k'.approx <= Bound(lo) == (MAX_BYTES / lo).Floor + 50
    decreases |bs|
  {
    hide StoreBatch, TrimOldestBatch, Stored, Triggers;
    if bs != [] {
      assert bs[|bs| - 1] in bs;
      var front := bs[..|bs| - 1];
      CounterIsBounded(cfg, server, f, k, front, lo);
      StepIsBounded(cfg, server, f, RunBatches(cfg, server, f, k, front), bs[|bs| - 1], lo);
    }
  }

  // ---------------------------------------------------------------- no early trim

  /** The room for the JSON text, without its terminator. */
  const LONGEST: nat := 383

  function RunStores(cfg: Config, server: Server, f: Fields, app: App, bs: seq<Batch>): (app': App)
    requires app.Valid() && Timed(bs)
    ensures app'.Valid()
    decreases |bs|
  {
    if bs == [] then app
    else
      assert bs[|bs| - 1] in bs;
      Stored(cfg, server, f, RunStores(cfg, server, f, app, bs[..|bs| - 1]), bs[|bs| - 1])
  }

  lemma MaxItemsOfLongest()
    ensures MaxItems(LONGEST as real) == 27377
  {
  }

  lemma NoTriggerYet(avgSize: real, approx: nat)
    requires avgSize <= LONGEST as real && approx <= 27427
    ensures !Triggers(avgSize, approx)
  {
    hide MaxItems;
    MaxItemsAntitone(avgSize, LONGEST as real);
    MaxItemsOfLongest();
  }

  /** Texts that fit their buffer cause no trim before 27428 batches: such a run only stores. */
  lemma {:induction false} NoEarlyTrim(cfg: Config, server: Server, f: Fields, app: App, bs: seq<Batch>)
    requires app.Valid() && Timed(bs) && |bs| <= 27427
    requires forall b | b in bs :: |b.json| <= LONGEST
    ensures var k := RunBatches(cfg, server, f, Keeper(app, 256.0, 0), bs);
            && k.app == RunStores(cfg, server, f, app, bs) && k.approx == |bs|
            && k.avgSize <= LONGEST as real
    decreases |bs|
  {
    hide TrimOldestBatch, Stored, Triggers;
    if bs != [] {
      var front, b := bs[..|bs| - 1], bs[|bs| - 1];
      assert b in bs;
      NoEarlyTrim(cfg, server, f, app, front);
      var before := RunBatches(cfg, server, f, Keeper(app, 256.0, 0), front);
      NoTriggerYet(NextAverage(before.avgSize, |b.json|), Counted(before.approx));
    }
  }

  // ---------------------------------------------------------------- what is deleted, and what goes wrong

  /** Whatever a trim deletes is older than whatever it leaves. */
  lemma DeletedIsOlder(db: Db, names: seq<Bytes>, a: Time, b: Time)
    requires AreOldest(db, HISTORY, names) && Valid(a) && Valid(b)
    requires KeyOf(a) in names && Child(HISTORY, KeyOf(b)) in db && KeyOf(b) !in names
    ensures Instant(a) < Instant(b)
  {
    hide KeyOf, Child, Instant, KeyLess;
    KeysAreChronological(a, b);
    var i :| 0 <= i < |names| && names[i] == KeyOf(a);
    assert KeyLess(names[i], KeyOf(b));
  }

  /** Every stored item is a batch of some time. */
  ghost predicate TimedItems(db: Db) {
    forall p | p in Items(db) :: IsBatchPath(p)
  }

  ghost predicate IsBatchPath(p: Bytes) {
    exists t: Time :: Valid(t) && p == Child(HISTORY, KeyOf(t))
  }

  /** Nothing that was removed is as new as anything that remains. */
  ghost predicate RemovesOlder(db: Db, db': Db) {
    && Items(db') <= Items(db)
    && forall a: Time, b: Time |
         && Valid(a) && Child(HISTORY, KeyOf(a)) in db && Child(HISTORY, KeyOf(a)) !in db'
         && Valid(b) && Child(HISTORY, KeyOf(b)) in db' ::
         Instant(a) < Instant(b)
  }

  lemma StoredIsTimed(cfg: Config, server: Server, f: Fields, app: App, b: Batch)
    requires Sound(cfg, server) && app.Valid() && Valid(b.time) && TimedItems(app.db)
    ensures TimedItems(Stored(cfg, server, f, app, b).db)
  {
    hide PutData, Child, KeyOf, Below, Sound, Schedule;
    var path := Child(HISTORY, KeyOf(b.time));
    PutIsAllOrNothing(cfg, server, f, app, path, b.json);
    assert IsBatchPath(path);
    var db := Stored(cfg, server, f, app, b).db;
    forall p | p in Items(db) ensures IsBatchPath(p) {
      assert p == path || p in Items(app.db);
    }
  }

  lemma TrimRemovesOlder(cfg: Config, server: Server, s: App)
    requires Sound(cfg, server) && Reconnects(server) && OrdersLongListings(cfg, server)
    requires s.Valid() && s.buffer == EMPTY && PlainStored(s.db, HISTORY)
    ensures RemovesOlder(s.db, TrimOldestBatch(cfg, server, s, HISTORY, TRIM_BATCH).app.db)
  {
    hide TrimOldestBatch, Child, KeyOf, Below, Sound, Reconnects, OrdersLongListings, AreStored, AreOldest,
      TrimRequests, PlainStored, Instant;
    var names := TrimDeletesOldest(cfg, server, s, HISTORY, TRIM_BATCH);
    var db' := TrimOldestBatch(cfg, server, s, HISTORY, TRIM_BATCH).app.db;
    forall a: Time, b: Time |
      && Valid(a) && Child(HISTORY, KeyOf(a)) in s.db && Child(HISTORY, KeyOf(a)) !in db'
      && Valid(b) && Child(HISTORY, KeyOf(b)) in db'
      ensures Instant(a) < Instant(b)
    {
      ChildOf(names, KeyOf(a));
      ChildOf(names, KeyOf(b));
      DeletedIsOlder(s.db, names, a, b);
    }
  }

  lemma ChildOf(names: seq<Bytes>, x: Bytes)
    ensures Child(HISTORY, x) in Children(HISTORY, names) <==> x in names
  {
    hide Child;
    if Child(HISTORY, x) in Children(HISTORY, names) {
      var i :| 0 <= i < |names| && Child(HISTORY, x) == Child(HISTORY, names[i]);
      ChildInjective(HISTORY, x, names[i]);
    }
    if x in names {
      var i :| 0 <= i < |names| && names[i] == x;
      assert Child(HISTORY, names[i]) in Children(HISTORY, names);
    }
  }

  lemma FewerAreTimed(db: Db, db': Db)
    requires TimedItems(db) && Items(db') <= Items(db)
    ensures TimedItems(db')
  {
  }

  lemma {:induction false} RunIsTimed(cfg: Config, server: Server, f: Fields, k: Keeper, bs: seq<Batch>)
    requires Sound(cfg, server) && Reconnects(server) && OrdersLongListings(cfg, server)
    requires Safe(k) && TimedItems(k.app.db) && Timed(bs) && k.approx + |bs| < UINT32
    ensures var k' := RunBatches(cfg, server, f, k, bs); Safe(k') && TimedItems(k'.app.db)
    decreases |bs|
  {
    hide StoreBatch, Sound, Reconnects, OrdersLongListings, Items, PlainStored, TimedItems;
    RunIsSafe(cfg, server, f, k, bs);
    if bs != [] {
      assert bs[|bs| - 1] in bs;
      var front := bs[..|bs| - 1];
      RunIsTimed(cfg, server, f, k, front);
      RunIsSafe(cfg, server, f, k, front);
      BatchRemovesOlder(cfg, server, f, RunBatches(cfg, server, f, k, front), bs[|bs| - 1]);
    }
  }

  lemma BatchRemovesOlder(cfg: Config, server: Server, f: Fields, k: Keeper, b: Batch)
    requires Sound(cfg, server) && Reconnects(server) && OrdersLongListings(cfg, server)
    requires Safe(k) && TimedItems(k.app.db) && Valid(b.time) && k.approx + 1 < UINT32
    ensures var db, db' := Stored(cfg, server, f, k.app, b).db, StoreBatch(cfg, server, f, k, b).app.db;
            TimedItems(db) && RemovesOlder(db, db') && TimedItems(db')
  {
    hide Stored, TrimOldestBatch, MaxItems, Sound, Reconnects, OrdersLongListings, Items, PlainStored, TimedItems,
      RemovesOlder;
    StoredIsSafe(cfg, server, f, k, b);
    StoredIsTimed(cfg, server, f, k.app, b);
    var app := Stored(cfg, server, f, k.app, b);
    NothingRemoved(app.db);
    TrimRemovesOlder(cfg, server, app);
    RemovesOlderShrinks(app.db, StoreBatch(cfg, server, f, k, b).app.db);
    FewerAreTimed(app.db, StoreBatch(cfg, server, f, k, b).app.db);
  }

  lemma NothingRemoved(db: Db)
    ensures RemovesOlder(db, db)
  {
    hide Child, KeyOf, Below, Instant;
  }

  lemma RemovesOlderShrinks(db: Db, db': Db)
    requires RemovesOlder(db, db')
    ensures Items(db') <= Items(db)
  {
  }

  /**
   * In every run that starts with an empty history, whatever a batch's trim returns: every
   * stored item is a batch, and every item that the trim removes is older in time than every
   * item that remains.
   */
  lemma TrimsRemoveOldest(cfg: Config, server: Server, f: Fields, s: App, bs: seq<Batch>, b: Batch)
    requires Sound(cfg, server) && Reconnects(server) && OrdersLongListings(cfg, server) && s.Valid()
    requires Items(Started(cfg, server, f, s).app.db) == {}
    requires Timed(bs) && Valid(b.time) && |bs| + 1 < UINT32
    ensures var before := RunBatches(cfg, server, f, Started(cfg, server, f, s), bs);
            var db, db' := Stored(cfg, server, f, before.app, b).db, StoreBatch(cfg, server, f, before, b).app.db;
            TimedItems(db) && RemovesOlder(db, db')
  {
    hide DeleteData, Stored, StoreBatch, Sound, Reconnects, OrdersLongListings, Items, RemovesOlder, PlainStored;
    var k := Started(cfg, server, f, s);
    StartIsSafe(cfg, server, f, s);
    assert TimedItems(k.app.db);
    RunIsTimed(cfg, server, f, k, bs);
    RunIsSafe(cfg, server, f, k, bs);
    BatchRemovesOlder(cfg, server, f, RunBatches(cfg, server, f, k, bs), b);
  }

  /** The answer of a server that refuses everything. */
  const REFUSAL: Reply := Reply(true, true, 500, false, false, [], true)

  lemma {:induction false} RefusedPerform(cfg: Config, s: App, req: Request, n: nat, last: Ret)
    requires s.Valid() && last.status != 401 && !Success(last.ok, last.status)
    ensures var p := Perform(cfg, Always(REFUSAL), s, req, n, last);
            p.app.db == s.db && p.ret.status != 401 && !Success(p.ret.ok, p.ret.status)
    decreases n
  {
    hide Apply, Receive;
    if n > 0 {
      RefusedPerform(cfg, Attempt(cfg, s, req, REFUSAL), req, n - 1, Ret(true, 500));
    }
  }

  /**
   * The result of the delete at the start is not looked at, and it matters: if it is refused
   * and there are items, the counter starts below their number.
   */
  lemma RefusedDeleteMisleads(cfg: Config, f: Fields, s: App)
    requires s.Valid() && Items(s.db) != {}
    ensures Sound(cfg, Always(REFUSAL)) && Reconnects(Always(REFUSAL))
    ensures !DeleteData(cfg, Always(REFUSAL), f, s, HISTORY).ok
    ensures var k := Started(cfg, Always(REFUSAL), f, s); |Items(k.app.db)| > k.approx
  {
    hide ListsOldest, Items;
    RefusedPerform(cfg, s, Request(DELETE, Database(HISTORY), s.auth, []), MAX_ATTEMPTS, NO_REPLY);
  }
}
