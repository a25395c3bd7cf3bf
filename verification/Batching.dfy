/**
 * The sampling half of sensor_task: readings are averaged in groups of five, and a record
 * carries the date only when it differs from the date sent before. Averages are over real
 * numbers; the CO2 average is computed in the program's unsigned types.
 */
module Batching {
  import opened Bytes
  import opened Wrappers

  type uint16 = n: nat | n < 0x1_0000

  const SAMPLES_PER_BATCH: nat := 5

  datatype Quantities = Quantities(
    pm1p0: real, pm2p5: real, pm4p0: real, pm10p0: real, voc: real, nox: real, temp: real, hum: real)

  const ZEROS: Quantities := Quantities(0.0, 0.0, 0.0, 0.0, 0.0, 0.0, 0.0, 0.0)

  datatype Sample = Sample(q: Quantities, co2: uint16)

  function Plus(a: Quantities, b: Quantities): Quantities {
    Quantities(a.pm1p0 + b.pm1p0, a.pm2p5 + b.pm2p5, a.pm4p0 + b.pm4p0, a.pm10p0 + b.pm10p0,
               a.voc + b.voc, a.nox + b.nox, a.temp + b.temp, a.hum + b.hum)
  }

  function Over(a: Quantities, d: real): Quantities
    requires d != 0.0
  {
    Quantities(a.pm1p0 / d, a.pm2p5 / d, a.pm4p0 / d, a.pm10p0 / d, a.voc / d, a.nox / d, a.temp / d, a.hum / d)
  }

  /** One round of the loop: what the sensors gave, and the date and time of the round. */
  datatype Tick = Tick(reading: Option<Sample>, date: Bytes, hour: Bytes)

  /** What is sent: the first record has everything, later ones a date only if it changed. */
  datatype Record =
    | First(avg: Sample, date: Bytes, hour: Bytes)
    | Dated(avg: Sample, date: Bytes, hour: Bytes)
    | Undated(avg: Sample, hour: Bytes)

  // ---------------------------------------------------------------- the loop

  class SensorTask {
    var sampleCount: nat
    var sums: Quantities
    /** A uint32_t. */
    var sumCo2: nat
    var firstSend: bool
    var lastDate: Bytes

    constructor ()
      ensures View() == START
    {
      sampleCount := 0;
      sums := ZEROS;
      sumCo2 := 0;
      firstSend := true;
      lastDate := [];
    }

    ghost function View(): Batcher
      reads this
    {
      Batcher(sampleCount, sums, sumCo2, firstSend, lastDate)
    }

    /** One round of the loop, up to the JSON text. */
    method Round(tick: Tick) returns (out: Option<Record>)
      modifies this
      ensures View() == Step(old(View()), tick).state && out == Step(old(View()), tick).out
    {
      if tick.reading.Some? {
        sampleCount := sampleCount + 1;
        sums := Plus(sums, tick.reading.value.q);
        sumCo2 := (sumCo2 + tick.reading.value.co2) % 0x1_0000_0000;
      }
      out := None;
      if sampleCount >= SAMPLES_PER_BATCH {
        var avg := Sample(Over(sums, sampleCount as real), (sumCo2 / sampleCount) % 0x1_0000);
        if firstSend {
          out := Some(First(avg, tick.date, tick.hour));
          lastDate := tick.date;
          firstSend := false;
        } else if lastDate != tick.date {
          out := Some(Dated(avg, tick.date, tick.hour));
          lastDate := tick.date;
        } else {
          out := Some(Undated(avg, tick.hour));
        }
        sampleCount := 0;
        sums := ZEROS;
        sumCo2 := 0;
      }
    }
  }

  datatype Batcher = Batcher(count: nat, sums: Quantities, co2: nat, first: bool, last: Bytes)

  const START: Batcher := Batcher(0, ZEROS, 0, true, [])

  datatype Stepped = Stepped(state: Batcher, out: Option<Record>)

  function AddReading(b: Batcher, reading: Option<Sample>): Batcher {
    if reading.None? then b
    else Batcher(b.count + 1, Plus(b.sums, reading.value.q), (b.co2 + reading.value.co2) % 0x1_0000_0000, b.first,
                 b.last)
  }

  function AverageOf(b: Batcher): Sample
    requires b.count > 0
  {
    Sample(Over(b.sums, b.count as real), (b.co2 / b.count) % 0x1_0000)
  }

  function RecordOf(b: Batcher, date: Bytes, hour: Bytes): Record
    requires b.count > 0
  {
    if b.first then First(AverageOf(b), date, hour)
    else if b.last != date then Dated(AverageOf(b), date, hour)
    else Undated(AverageOf(b), hour)
  }

  function Step(b: Batcher, tick: Tick): Stepped {
    var b' := AddReading(b, tick.reading);
    if b'.count < SAMPLES_PER_BATCH then Stepped(b', None)
    else Stepped(Batcher(0, ZEROS, 0, false, tick.date), Some(RecordOf(b', tick.date, tick.hour)))
  }

  datatype Ran = Ran(state: Batcher, records: seq<Record>)

  function Run(ticks: seq<Tick>): Ran
    decreases |ticks|
  {
    if ticks == [] then Ran(START, [])
    else
      var before := Run(ticks[..|ticks| - 1]);
      var s := Step(before.state, ticks[|ticks| - 1]);
      Ran(s.state, before.records + if s.out.Some? then [s.out.value] else [])
  }

  // ---------------------------------------------------------------- groups of five

  /** The rounds in which the sensors could be read. */
  function Successes(ticks: seq<Tick>): (r: seq<Tick>)
    ensures forall i | 0 <= i < |r| :: r[i].reading.Some?
    decreases |ticks|
  {
    if ticks == [] then []
    else
      var n := |ticks| - 1;
      Successes(ticks[..n]) + if ticks[n].reading.Some? then [ticks[n]] else []
  }

  function SumOf(group: seq<Tick>): Quantities
    requires forall t | t in group :: t.reading.Some?
    decreases |group|
  {
    if group == [] then ZEROS
    else
      assert group[|group| - 1] in group;
      Plus(SumOf(group[..|group| - 1]), group[|group| - 1].reading.value.q)
  }

  function Co2Of(group: seq<Tick>): (n: nat)
    requires forall t | t in group :: t.reading.Some?
    ensures n <= 0xFFFF * |group|
    decreases |group|
  {
    if group == [] then 0
    else
      assert group[|group| - 1] in group;
      Co2Of(group[..|group| - 1]) + group[|group| - 1].reading.value.co2
  }

  /** Group number `i` of the readable rounds. */
  function Group(s: seq<Tick>, i: nat): (g: seq<Tick>)
    requires 5 * i + 5 <= |s|
    ensures |g| == 5
  {
    s[5 * i..5 * i + 5]
  }

  predicate AllReadable(s: seq<Tick>) {
    forall t | t in s :: t.reading.Some?
  }

  lemma SliceReadable(s: seq<Tick>, lo: nat, hi: nat)
    requires AllReadable(s) && lo <= hi <= |s|
    ensures AllReadable(s[lo..hi])
  {
  }

  /** The date of a record is the date of the round that completed its group. */
  function DateOf(s: seq<Tick>, i: nat): Bytes
    requires 5 * i + 5 <= |s|
  {
    s[5 * i + 4].date
  }

  /** The sum of one quantity over five readable rounds. */
  function FiveOf(g: seq<Tick>, f: Sample -> real): real
    requires |g| == 5 && AllReadable(g)
  {
    f(At(g, 0)) + f(At(g, 1)) + f(At(g, 2)) + f(At(g, 3)) + f(At(g, 4))
  }

  function At(g: seq<Tick>, i: nat): Sample
    requires AllReadable(g) && i < |g|
  {
    assert g[i] in g;
    g[i].reading.value
  }

  /** Each quantity is the mean of the five readings, and the CO2 value is the mean rounded down. */
  ghost predicate IsMean(avg: Sample, g: seq<Tick>)
    requires |g| == 5 && AllReadable(g)
  {
    && 5.0 * avg.q.pm1p0 == FiveOf(g, (x: Sample) => x.q.pm1p0)
    && 5.0 * avg.q.pm2p5 == FiveOf(g, (x: Sample) => x.q.pm2p5)
    && 5.0 * avg.q.pm4p0 == FiveOf(g, (x: Sample) => x.q.pm4p0)
    && 5.0 * avg.q.pm10p0 == FiveOf(g, (x: Sample) => x.q.pm10p0)
    && 5.0 * avg.q.voc == FiveOf(g, (x: Sample) => x.q.voc)
    && 5.0 * avg.q.nox == FiveOf(g, (x: Sample) => x.q.nox)
    && 5.0 * avg.q.temp == FiveOf(g, (x: Sample) => x.q.temp)
    && 5.0 * avg.q.hum == FiveOf(g, (x: Sample) => x.q.hum)
    && avg.co2 == (At(g, 0).co2 + At(g, 1).co2 + At(g, 2).co2 + At(g, 3).co2 + At(g, 4).co2) / 5
  }

  /** The record of group `i`, described without the loop. */
  ghost predicate IsRecordOf(r: Record, s: seq<Tick>, i: nat)
    requires AllReadable(s) && 5 * i + 5 <= |s|
  {
    SliceReadable(s, 5 * i, 5 * i + 5);
    var g := Group(s, i);
    && IsMean(r.avg, g)
    && r.hour == s[5 * i + 4].hour
    && (r.First? <==> i == 0)
    && (r.Dated? <==> i > 0 && DateOf(s, i) != DateOf(s, i - 1))
    && (!r.Undated? ==> r.date == DateOf(s, i))
  }

  lemma SuccessesReadable(ticks: seq<Tick>)
    ensures AllReadable(Successes(ticks))
  {
  }

  /** What the state holds after the readable rounds `s`: the unfinished group and the last date sent. */
  ghost predicate Tracks(b: Batcher, s: seq<Tick>)
    requires AllReadable(s)
  {
    var k := |s| / 5;
    SliceReadable(s, 5 * k, |s|);
    && b.count == |s| % 5
    && b.sums == SumOf(s[5 * k..])
    && b.co2 == Co2Of(s[5 * k..])
    && b.first == (k == 0)
    && (k > 0 ==> b.last == DateOf(s, k - 1))
  }

  ghost predicate AllRecords(records: seq<Record>, s: seq<Tick>)
    requires AllReadable(s)
  {
    |records| == |s| / 5 && forall i | 0 <= i < |records| :: IsRecordOf(records[i], s, i)
  }

  lemma GroupOfPrefix(s: seq<Tick>, t: Tick, r: Record, i: nat)
    requires AllReadable(s + [t]) && AllReadable(s) && 5 * i + 5 <= |s| && IsRecordOf(r, s, i)
    ensures IsRecordOf(r, s + [t], i)
  {
    hide IsMean;
    assert Group(s + [t], i) == Group(s, i);
    assert i > 0 ==> DateOf(s + [t], i - 1) == DateOf(s, i - 1);
  }

  lemma OneMore(b: Batcher, s: seq<Tick>, t: Tick)
    requires AllReadable(s + [t]) && AllReadable(s) && Tracks(b, s)
    ensures var b' := AddReading(b, t.reading);
            var k := |s| / 5;
            && AllReadable((s + [t])[5 * k..])
            && b'.count == |s| % 5 + 1
            && b'.sums == SumOf((s + [t])[5 * k..])
            && b'.co2 == Co2Of((s + [t])[5 * k..])
            && b'.first == b.first && b'.last == b.last
  {
    hide Plus;
    var k := |s| / 5;
    var g := (s + [t])[5 * k..];
    assert t in s + [t];
    assert g[..|g| - 1] == s[5 * k..] && g[|g| - 1] == t;
    SliceReadable(s + [t], 5 * k, |s| + 1);
  }

  lemma StepTracks(b: Batcher, records: seq<Record>, s: seq<Tick>, t: Tick)
    requires AllReadable(s + [t]) && AllReadable(s) && Tracks(b, s) && AllRecords(records, s)
    ensures var st := Step(b, t);
            && Tracks(st.state, s + [t])
            && AllRecords(records + (if st.out.Some? then [st.out.value] else []), s + [t])
  {
    hide SumOf, Co2Of, Plus, Over, IsRecordOf;
    OneMore(b, s, t);
    var st := Step(b, t);
    var k := |s| / 5;
    var s' := s + [t];
    forall i | 0 <= i < |records| ensures IsRecordOf(records[i], s', i) {
      GroupOfPrefix(s, t, records[i], i);
    }
    if |s| % 5 == 4 {
      LastOfGroup(b, s, t);
      NothingYet();
      assert s'[5 * (k + 1)..] == [];
      assert DateOf(s', k) == t.date;
    } else {
      assert |s'| / 5 == k;
      assert k > 0 ==> DateOf(s', k - 1) == DateOf(s, k - 1);
    }
  }

  lemma NothingYet()
    ensures SumOf([]) == ZEROS && Co2Of([]) == 0
  {
  }

  lemma SumOfFive(g: seq<Tick>)
    requires |g| == 5 && AllReadable(g)
    ensures AllReadable(g[..4]) && AllReadable(g[..3]) && AllReadable(g[..2]) && AllReadable(g[..1])
    ensures SumOf(g) == Plus(Plus(Plus(Plus(Plus(ZEROS, At(g, 0).q), At(g, 1).q), At(g, 2).q), At(g, 3).q), At(g, 4).q)
    ensures Co2Of(g) == At(g, 0).co2 + At(g, 1).co2 + At(g, 2).co2 + At(g, 3).co2 + At(g, 4).co2
  {
    hide Plus;
    assert g[..4][..3] == g[..3] && g[..3][..2] == g[..2] && g[..2][..1] == g[..1] && g[..1][..0] == [];
    SumStep(g);
    SumStep(g[..4]);
    SumStep(g[..3]);
    SumStep(g[..2]);
    SumStep(g[..1]);
    NothingYet();
  }

  lemma SumStep(g: seq<Tick>)
    requires AllReadable(g) && g != []
    ensures AllReadable(g[..|g| - 1])
    ensures SumOf(g) == Plus(SumOf(g[..|g| - 1]), At(g, |g| - 1).q)
    ensures Co2Of(g) == Co2Of(g[..|g| - 1]) + At(g, |g| - 1).co2
  {
    hide Plus;
  }

  lemma MeanOfFive(g: seq<Tick>, avg: Sample)
    requires |g| == 5 && AllReadable(g)
    requires avg.q == Over(SumOf(g), 5.0) && avg.co2 == Co2Of(g) / 5
    ensures IsMean(avg, g)
  {
    hide SumOf, Co2Of;
    SumOfFive(g);
  }

  lemma LastOfGroup(b: Batcher, s: seq<Tick>, t: Tick)
    requires AllReadable(s + [t]) && AllReadable(s) && Tracks(b, s) && |s| % 5 == 4
    ensures var b' := AddReading(b, t.reading);
            b'.count == 5 && IsRecordOf(RecordOf(b', t.date, t.hour), s + [t], |s| / 5)
  {
    hide SumOf, Plus, Over, IsMean;
    OneMore(b, s, t);
    var k, s' := |s| / 5, s + [t];
    assert s'[5 * k..] == Group(s', k);
    SliceReadable(s', 5 * k, 5 * k + 5);
    MeanOfFive(Group(s', k), AverageOf(AddReading(b, t.reading)));
    assert k > 0 ==> DateOf(s', k - 1) == DateOf(s, k - 1);
  }

  /**
   * Over every run: the records are one for each complete group of five readable rounds, in
   * order, with the averages of that group; nothing is lost, duplicated or overflows.
   */
  lemma {:induction false} BatchesPartitionTheSamples(ticks: seq<Tick>)
    ensures AllReadable(Successes(ticks))
    ensures Tracks(Run(ticks).state, Successes(ticks)) && AllRecords(Run(ticks).records, Successes(ticks))
    decreases |ticks|
  {
    hide Step, Tracks, AllRecords;
    SuccessesReadable(ticks);
    if ticks == [] {
      StartTracks();
    } else {
      var front, t := ticks[..|ticks| - 1], ticks[|ticks| - 1];
      BatchesPartitionTheSamples(front);
      var before := Run(front);
      if t.reading.Some? {
        StepTracks(before.state, before.records, Successes(front), t);
      } else {
        UnreadStep(before.state, Successes(front), t);
        assert before.records + [] == before.records;
        assert Successes(front) + [] == Successes(front);
      }
    }
  }

  lemma StartTracks()
    ensures Tracks(START, []) && AllRecords([], [])
  {
    NothingYet();
  }

  lemma UnreadStep(b: Batcher, s: seq<Tick>, t: Tick)
    requires AllReadable(s) && Tracks(b, s) && t.reading.None?
    ensures Step(b, t) == Stepped(b, None)
  {
  }

  function Times(a: nat, n: nat): nat {
    if n == 0 then 0 else Times(a, n - 1) + a
  }

  lemma FiveTimes(a: nat)
    ensures Times(a, 5) == 5 * a
  {
    assert Times(a, 1) == a;
    assert Times(a, 2) == Times(a, 1) + a;
    assert Times(a, 3) == Times(a, 2) + a;
    assert Times(a, 4) == Times(a, 3) + a;
  }

  lemma {:induction false} SumBetween(g: seq<Tick>, lo: nat, hi: nat)
    requires AllReadable(g) && forall t | t in g :: lo <= t.reading.value.co2 <= hi
    ensures Times(lo, |g|) <= Co2Of(g) <= Times(hi, |g|)
    decreases |g|
  {
    if g != [] {
      var n := |g| - 1;
      assert g[n] in g;
      SumBetween(g[..n], lo, hi);
    }
  }

  /** The CO2 average of a record lies between the smallest and the largest reading of its group. */
  lemma MeanBetween(r: Record, s: seq<Tick>, i: nat, lo: nat, hi: nat)
    requires AllReadable(s) && 5 * i + 5 <= |s| && IsRecordOf(r, s, i)
    requires forall t | t in Group(s, i) :: t.reading.Some? && lo <= t.reading.value.co2 <= hi
    ensures lo <= r.avg.co2 <= hi
  {
    hide SumOf, Co2Of;
    SumOfFive(Group(s, i));
    SumBetween(Group(s, i), lo, hi);
    FiveTimes(lo);
    FiveTimes(hi);
  }

  // ---------------------------------------------------------------- dates

  predicate HasDate(r: Record) {
    !r.Undated?
  }

  /** The date that the records up to `i` tell, when only those marked in `kept` arrived. */
  function Told(records: seq<Record>, kept: seq<bool>, i: nat): Option<Bytes>
    requires i < |records| == |kept|
  {
    if kept[i] && HasDate(records[i]) then Some(records[i].date)
    else if i == 0 then None
    else Told(records, kept, i - 1)
  }

  /** The first group of the stretch of equal dates that group `i` is in. */
  function Introduces(s: seq<Tick>, i: nat): (j: nat)
    requires 5 * i + 5 <= |s|
    ensures j <= i
  {
    if i > 0 && DateOf(s, i) == DateOf(s, i - 1) then Introduces(s, i - 1) else i
  }

  function AllKept(n: nat): (r: seq<bool>)
    ensures |r| == n && forall i | 0 <= i < n :: r[i]
  {
    seq(n, _ => true)
  }

  /** Carrying the latest date forward gives the date of every record sent. */
  lemma {:induction false} DatesAreReconstructed(records: seq<Record>, s: seq<Tick>, i: nat)
    requires AllReadable(s) && AllRecords(records, s) && i < |records|
    ensures Told(records, AllKept(|records|), i) == Some(DateOf(s, i))
  {
    assert IsRecordOf(records[i], s, i);
    if i > 0 {
      DatesAreReconstructed(records, s, i - 1);
    }
  }

  /** No date comes back after another one. */
  ghost predicate DatesNeverReturn(s: seq<Tick>) {
    forall a: nat, b: nat, c: nat | a < b < c && 5 * c + 5 <= |s| && DateOf(s, a) == DateOf(s, c) ::
        DateOf(s, b) == DateOf(s, a)
  }

  /** A date that is told was sent earlier. */
  lemma {:induction false} ToldWasSent(records: seq<Record>, kept: seq<bool>, s: seq<Tick>, i: nat) returns (j: nat)
    requires AllReadable(s) && AllRecords(records, s) && i < |records| == |kept|
    requires Told(records, kept, i).Some?
    ensures j <= i && DateOf(s, j) == Told(records, kept, i).value
  {
    assert IsRecordOf(records[i], s, i);
    if kept[i] && HasDate(records[i]) {
      j := i;
    } else {
      j := ToldWasSent(records, kept, s, i - 1);
    }
  }

  /**
   * If records are lost, the date told for a record is right exactly when the record that
   * introduced its date was not lost.
   */
  lemma {:induction false} DateIsRightIffIntroduced(records: seq<Record>, kept: seq<bool>, s: seq<Tick>, i: nat)
    requires AllReadable(s) && AllRecords(records, s) && i < |records| == |kept| && DatesNeverReturn(s)
    ensures Told(records, kept, i) == Some(DateOf(s, i)) <==> kept[Introduces(s, i)]
  {
    hide DateOf, AllReadable, IsMean;
    assert IsRecordOf(records[i], s, i);
    if i > 0 {
      DateIsRightIffIntroduced(records, kept, s, i - 1);
      if !kept[i] && DateOf(s, i) != DateOf(s, i - 1) && Told(records, kept, i - 1).Some? {
        var j := ToldWasSent(records, kept, s, i - 1);
        NotBack(s, j, i);
      }
    }
  }

  lemma NotBack(s: seq<Tick>, j: nat, i: nat)
    requires DatesNeverReturn(s) && j < i && 5 * i + 5 <= |s| && DateOf(s, i) != DateOf(s, i - 1)
    ensures DateOf(s, j) != DateOf(s, i)
  {
    hide DateOf;
  }
}
