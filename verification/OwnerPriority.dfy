/**
 The receiver's budget controller: it subtracts measured owner traffic from a known capacity, yields entirely while the
 owner is active and for a second afterwards, and treats whatever it cannot classify as the owner's.
 */
module OwnerPriority {
  import opened Unicode
  import opened Numerals
  import opened WaterFilling
  import FairShares

  const SECOND := 1_000_000_000
  const OWNER_IDLE_HOLD := SECOND
  const MAXIMUM_SAMPLE_GAP := 3 * SECOND

  /** A receive leg: its route context and path. */
  type Key = (seq<int>, nat)

  datatype Row = Row(key: Key, relayExit: bool, bytes: Option<u64>)

  datatype Snapshot = Snapshot(total: Option<u64>, managed: seq<Row>)

  /** Counters of the controlled legs at one instant, in nanoseconds. */
  datatype History = History(time: nat, total: u64, controlled: map<Key, u64>)

  datatype Window = Window(available: u64, paths: set<Key>)

  type u32 = x: int | 0 <= x < 0x1_0000_0000

  datatype Settings = Settings(capacity: u64, ceiling: u64)

  /** Capacity and ceiling in bytes per second from the configured megabits. */
  function Configure(totalMbps: u32, ceilingMbps: u32): (s: Settings) {
    Settings(totalMbps * 125_000, ceilingMbps * 125_000)
  }

  /** A megabit is a million bits, and a byte is eight. */
  lemma SettingsAreMegabits(totalMbps: u32, ceilingMbps: u32)
    ensures 8 * Configure(totalMbps, ceilingMbps).capacity == 1_000_000 * totalMbps
    ensures 8 * Configure(totalMbps, ceilingMbps).ceiling == 1_000_000 * ceilingMbps
  {}

  // Which rows count

  function Kept(rows: seq<Row>, controlled: set<Key>): (r: seq<Row>) {
    if rows == [] then []
    else
      var last := rows[|rows| - 1];
      Kept(rows[..|rows| - 1], controlled) + if !last.relayExit || last.key in controlled then [last] else []
  }

  /** Relay rows outside the exact grants are dropped, so their traffic stays with the owner. */
  method RetainControlledRows(rows: seq<Row>, controlled: set<Key>) returns (r: Option<seq<Row>>)
    ensures r == if |controlled| > 128 then None else Some(Kept(rows, controlled))
  {
    if |controlled| > 128 {
      return None;
    }
    var kept := [];
    for i := 0 to |rows|
      invariant kept == Kept(rows[..i], controlled)
    {
      assert rows[..i + 1][..i] == rows[..i];
      if !rows[i].relayExit || rows[i].key in controlled {
        kept := kept + [rows[i]];
      }
    }
    assert rows[..|rows|] == rows;
    r := Some(kept);
  }

  /** A row is kept, as often as it came, unless it is a relay row outside the grants. */
  lemma {:induction false} KeptIsExact(rows: seq<Row>, controlled: set<Key>, row: Row)
    ensures multiset(Kept(rows, controlled))[row]
         == if row.relayExit && row.key !in controlled then 0 else multiset(rows)[row]
  {
    if rows == [] {
    } else {
      var front, last := rows[..|rows| - 1], rows[|rows| - 1];
      KeptIsExact(front, controlled, row);
      assert rows == front + [last];
    }
  }

  predicate AllCounted(rows: seq<Row>) {
    forall i :: 0 <= i < |rows| && rows[i].relayExit ==> rows[i].bytes.Some?
  }

  /** The relay counters, a later row for the same leg replacing an earlier one. */
  function Counters(rows: seq<Row>): (m: map<Key, u64>)
    requires AllCounted(rows)
  {
    if rows == [] then map[]
    else
      var last := rows[|rows| - 1];
      var m := Counters(rows[..|rows| - 1]);
      if last.relayExit then m[last.key := last.bytes.value] else m
  }

  /** The last relay row for a leg. */
  ghost predicate IsLatest(rows: seq<Row>, k: Key, i: nat) {
    && i < |rows| && rows[i].relayExit && rows[i].key == k
    && forall j :: i < j < |rows| && rows[j].relayExit ==> rows[j].key != k
  }

  /** A leg counts only if it has a relay row. */
  lemma {:induction false} CounterHasRow(rows: seq<Row>, k: Key) returns (i: nat)
    requires AllCounted(rows) && k in Counters(rows)
    ensures IsLatest(rows, k, i)
  {
    var front, last := rows[..|rows| - 1], rows[|rows| - 1];
    if last.relayExit && last.key == k {
      i := |front|;
    } else {
      i := CounterHasRow(front, k);
      assert forall j :: 0 <= j < |front| ==> front[j] == rows[j];
    }
  }

  /** And then with the bytes of the last one. */
  lemma {:induction false} LatestRowCounts(rows: seq<Row>, k: Key, i: nat)
    requires AllCounted(rows) && IsLatest(rows, k, i)
    ensures k in Counters(rows) && rows[i].bytes == Some(Counters(rows)[k])
  {
    if i == |rows| - 1 {
    } else {
      var front := rows[..|rows| - 1];
      assert forall j :: 0 <= j < |front| ==> front[j] == rows[j];
      LatestRowCounts(front, k, i);
    }
  }

  // Specification of one observation

  ghost predicate Regressed(old': map<Key, u64>, new': map<Key, u64>) {
    exists k :: k in old' && k in new' && new'[k] < old'[k]
  }

  /** Bytes the legs present in both samples received in between. */
  ghost function Received(keys: set<Key>, old': map<Key, u64>, new': map<Key, u64>): (n: nat)
    requires forall k :: k in keys ==> k in old' && k in new' && old'[k] <= new'[k]
  {
    if keys == {} then 0
    else
      var k :| k in keys;
      new'[k] - old'[k] + Received(keys - {k}, old', new')
  }

  lemma {:induction false} ReceivedWithout(keys: set<Key>, old': map<Key, u64>, new': map<Key, u64>, k: Key)
    requires forall x :: x in keys ==> x in old' && x in new' && old'[x] <= new'[x]
    requires k in keys
    ensures Received(keys, old', new') == new'[k] - old'[k] + Received(keys - {k}, old', new')
    decreases |keys|
  {
    var x :| x in keys && Received(keys, old', new') == new'[x] - old'[x] + Received(keys - {x}, old', new');
    if x == k {
    } else {
      ReceivedWithout(keys - {x}, old', new', k);
      ReceivedWithout(keys - {k}, old', new', x);
      assert keys - {x} - {k} == keys - {k} - {x};
    }
  }

  /** The interval between two samples can be measured at all. */
  ghost predicate Usable(before: History, now: History) {
    && before.time < now.time <= before.time + MAXIMUM_SAMPLE_GAP
    && before.total <= now.total
    && !Regressed(before.controlled, now.controlled)
  }

  /** Bytes that no controlled leg accounts for. */
  ghost function OwnerDelta(before: History, now: History): (n: nat)
    requires Usable(before, now)
  {
    Max(0, now.total - before.total
           - Min(U64_MAX, Received(before.controlled.Keys * now.controlled.Keys, before.controlled, now.controlled)))
  }

  /** How often `d` goes into `n`. */
  ghost function Quotient(n: nat, d: nat): (q: nat)
    requires d > 0
    ensures q * d <= n < q * d + d
    decreases n
  {
    if n < d then 0 else
      var q := Quotient(n - d, d);
      assert (q + 1) * d == q * d + d;
      q + 1
  }

  /** A rate in bytes per second, saturating. */
  ghost function PerSecond(bytes: nat, elapsed: nat): (n: u64)
    requires elapsed > 0
  {
    Min(U64_MAX, Quotient(bytes * SECOND, elapsed))
  }

  lemma MultiplesGrow(q: nat, r: nat, d: nat)
    requires q < r
    ensures q * d + d <= r * d
  {
    assert r * d == (q + 1) * d + (r - q - 1) * d;
  }

  lemma SameMultiple(q: nat, r: nat, d: nat, x: nat)
    requires q * d <= x < q * d + d && r * d <= x < r * d + d
    ensures q == r
  {
    if q < r {
      MultiplesGrow(q, r, d);
    } else if r < q {
      MultiplesGrow(r, q, d);
    }
  }

  method MeasureRate(bytes: nat, elapsed: nat) returns (n: u64)
    requires elapsed > 0
    ensures n == PerSecond(bytes, elapsed)
  {
    var x := bytes * SECOND;
    var q := x / elapsed;
    assert q * elapsed <= x < q * elapsed + elapsed;
    SameMultiple(q, Quotient(x, elapsed), elapsed, x);
    n := Min(U64_MAX, q);
  }

  ghost function OwnerRate(before: History, now: History): (n: u64)
    requires Usable(before, now)
  {
    PerSecond(OwnerDelta(before, now), now.time - before.time)
  }

  /** Owner activity substantial enough to yield entirely. */
  ghost predicate OwnerActive(settings: Settings, before: History, now: History)
    requires Usable(before, now)
  {
    OwnerDelta(before, now) >= 2048 && OwnerRate(before, now) >= Max(settings.capacity / 100, 16_384)
  }

  ghost function BusyUntil(settings: Settings, before: Option<History>, busy: Option<nat>, now: History)
    : (r: Option<nat>)
  {
    if before.Some? && Usable(before.value, now) && OwnerActive(settings, before.value, now)
    then Some(now.time + OWNER_IDLE_HOLD) else busy
  }

  ghost function Budget(settings: Settings, before: Option<History>, busy: Option<nat>, now: History): (n: u64) {
    var held := BusyUntil(settings, before, busy, now);
    if before.None? || !Usable(before.value, now) || (held.Some? && now.time < held.value) then 0
    else Min(settings.ceiling, Max(0, settings.capacity - OwnerRate(before.value, now)))
  }

  method CollectCounters(rows: seq<Row>) returns (ok: bool, m: map<Key, u64>)
    ensures ok <==> AllCounted(rows)
    ensures ok ==> m == Counters(rows)
  {
    m := map[];
    for i := 0 to |rows|
      invariant AllCounted(rows[..i]) && m == Counters(rows[..i])
    {
      assert rows[..i + 1][..i] == rows[..i];
      if rows[i].relayExit {
        if rows[i].bytes.None? {
          return false, map[];
        }
        m := m[rows[i].key := rows[i].bytes.value];
      }
    }
    assert rows[..|rows|] == rows;
    ok := true;
  }

  /** Sum, saturating, what each continuing leg received; stop at a counter that went backwards. */
  method MeasureReceived(old': map<Key, u64>, new': map<Key, u64>) returns (monotone: bool, received: nat)
    ensures monotone <==> !Regressed(old', new')
    ensures monotone ==> received == Min(U64_MAX, Received(old'.Keys * new'.Keys, old', new'))
  {
    var pending := new'.Keys;
    received := 0;
    ghost var seen: set<Key> := {};
    while pending != {}
      invariant seen !! pending && pending <= new'.Keys
      invariant forall k :: k in old' && k in new' ==> k in seen || k in pending
      invariant forall k :: k in seen ==> k in old' && k in new' && old'[k] <= new'[k]
      invariant received == Min(U64_MAX, Received(seen, old', new'))
      decreases pending
    {
      var k :| k in pending;
      pending := pending - {k};
      if k in old' {
        if new'[k] < old'[k] {
          return false, 0;
        }
        ReceivedWithout(seen + {k}, old', new', k);
        assert seen + {k} - {k} == seen;
        received := Min(U64_MAX, received + (new'[k] - old'[k]));
        seen := seen + {k};
      }
    }
    assert seen == old'.Keys * new'.Keys;
    monotone := true;
  }

  class ReceiveBudgetController {
    const settings: Settings
    var previous: Option<History>
    var ownerBusyUntil: Option<nat>

    constructor (totalMbps: u32, ceilingMbps: u32)
      ensures settings == Configure(totalMbps, ceilingMbps) && previous.None? && ownerBusyUntil.None?
    {
      settings := Configure(totalMbps, ceilingMbps);
      previous, ownerBusyUntil := None, None;
    }

    /** One sample. An incomplete snapshot is refused and changes nothing. */
    method Observe(snapshot: Snapshot, now: nat) returns (r: Option<Window>)
      modifies this
      ensures r.Some? <==> snapshot.total.Some? && AllCounted(snapshot.managed)
      ensures r.Some? ==>
                var sample := History(now, snapshot.total.value, Counters(snapshot.managed));
                && previous == Some(sample)
                && ownerBusyUntil == BusyUntil(settings, old(previous), old(ownerBusyUntil), sample)
                && r.value == Window(Budget(settings, old(previous), old(ownerBusyUntil), sample),
                                     sample.controlled.Keys)
      ensures r.None? ==> previous == old(previous) && ownerBusyUntil == old(ownerBusyUntil)
    {
      if snapshot.total.None? {
        return None;
      }
      var total := snapshot.total.value;
      var counted, controlled := CollectCounters(snapshot.managed);
      if !counted {
        return None;
      }
      var closed := Window(0, controlled.Keys);
      var before := previous;
      ghost var sample := History(now, total, controlled);
      previous := Some(History(now, total, controlled));
      if before.None? {
        return Some(closed);
      }
      var past := before.value;
      if now < past.time || now - past.time == 0 || now - past.time > MAXIMUM_SAMPLE_GAP || total < past.total {
        return Some(closed);
      }
      var monotone, received := MeasureReceived(past.controlled, controlled);
      if !monotone {
        return Some(closed);
      }
      assert Usable(past, sample);
      var ownerDelta := Max(0, total - past.total - received);
      assert ownerDelta == OwnerDelta(past, sample);
      var ownerRate := MeasureRate(ownerDelta, now - past.time);
      if ownerDelta >= 2048 && ownerRate >= Max(settings.capacity / 100, 16_384) {
        ownerBusyUntil := Some(now + OWNER_IDLE_HOLD);
      }
      if ownerBusyUntil.Some? && now < ownerBusyUntil.value {
        return Some(closed);
      }
      return Some(closed.(available := Min(settings.ceiling, Max(0, settings.capacity - ownerRate))));
    }
  }

  // Runs

  ghost function Last(samples: seq<History>, n: nat): (r: Option<History>)
    requires n <= |samples|
  {
    if n == 0 then None else Some(samples[n - 1])
  }

  /** The controller's state after the samples before `n`: the last sample and the busy hold. */
  ghost function Hold(settings: Settings, samples: seq<History>, n: nat): (r: Option<nat>)
    requires n <= |samples|
  {
    if n == 0 then None
    else BusyUntil(settings, Last(samples, n - 1), Hold(settings, samples, n - 1), samples[n - 1])
  }

  /** The budget answered to sample `n` of a run. */
  ghost function BudgetAt(settings: Settings, samples: seq<History>, n: nat): (b: u64)
    requires n < |samples|
  {
    Budget(settings, Last(samples, n), Hold(settings, samples, n), samples[n])
  }

  predicate ClockAdvances(samples: seq<History>) {
    forall i, j :: 0 <= i <= j < |samples| ==> samples[i].time <= samples[j].time
  }

  ghost predicate ActiveAt(settings: Settings, samples: seq<History>, n: nat)
    requires n < |samples|
  {
    n > 0 && Usable(samples[n - 1], samples[n]) && OwnerActive(settings, samples[n - 1], samples[n])
  }

  /** The hold remembers the latest active sample. */
  lemma {:induction false} HoldCoversActivity(settings: Settings, samples: seq<History>, n: nat, j: nat)
    requires ClockAdvances(samples) && j < n <= |samples| && ActiveAt(settings, samples, j)
    ensures var held := Hold(settings, samples, n); held.Some? && held.value >= samples[j].time + OWNER_IDLE_HOLD
    decreases n
  {
    if j == n - 1 {
    } else {
      HoldCoversActivity(settings, samples, n - 1, j);
    }
  }

  /** The hold is never anything but the hold of some active sample. */
  lemma {:induction false} HoldComesFromActivity(settings: Settings, samples: seq<History>, n: nat) returns (j: nat)
    requires n <= |samples| && Hold(settings, samples, n).Some?
    ensures j < n && ActiveAt(settings, samples, j)
    ensures Hold(settings, samples, n).value == samples[j].time + OWNER_IDLE_HOLD
    decreases n
  {
    if ActiveAt(settings, samples, n - 1) {
      j := n - 1;
    } else {
      j := HoldComesFromActivity(settings, samples, n - 1);
    }
  }

  /** No owner activity up to sample `n` lies less than the hold time back. */
  ghost predicate QuietSince(settings: Settings, samples: seq<History>, n: nat)
    requires n < |samples|
  {
    forall j :: 0 <= j <= n && ActiveAt(settings, samples, j) ==> samples[j].time + OWNER_IDLE_HOLD <= samples[n].time
  }

  lemma HoldIsQuiet(settings: Settings, samples: seq<History>, n: nat)
    requires ClockAdvances(samples) && n < |samples|
    ensures var held := Hold(settings, samples, n + 1);
      QuietSince(settings, samples, n) <==> held.None? || held.value <= samples[n].time
  {
    forall j | 0 <= j <= n && ActiveAt(settings, samples, j)
      ensures var held := Hold(settings, samples, n + 1); held.Some? && samples[j].time + OWNER_IDLE_HOLD <= held.value
    {
      HoldCoversActivity(settings, samples, n + 1, j);
    }
    if Hold(settings, samples, n + 1).Some? {
      var j := HoldComesFromActivity(settings, samples, n + 1);
    }
  }

  /** The budget is open: a fresh, forward, unregressed interval, and no owner activity during the last second. */
  ghost predicate IsOpen(settings: Settings, samples: seq<History>, n: nat)
    requires n < |samples|
  {
    n > 0 && Usable(samples[n - 1], samples[n]) && QuietSince(settings, samples, n)
  }

  /** Owner priority over a whole run, exactly: while open the budget is the ceiling or what the measured owner rate
      leaves of the capacity, and otherwise it is nothing. */
  lemma BudgetIsExact(settings: Settings, samples: seq<History>, n: nat)
    requires ClockAdvances(samples) && n < |samples|
    ensures BudgetAt(settings, samples, n)
         == if IsOpen(settings, samples, n)
            then Min(settings.ceiling, Max(0, settings.capacity - OwnerRate(samples[n - 1], samples[n]))) else 0
  {
    HoldIsQuiet(settings, samples, n);
    assert Hold(settings, samples, n + 1)
        == BusyUntil(settings, Last(samples, n), Hold(settings, samples, n), samples[n]);
  }

  // The same in figures

  /** What the listed legs received between two readings. */
  ghost function Growth(legs: seq<Key>, old': map<Key, u64>, new': map<Key, u64>): (n: int)
    requires forall i :: 0 <= i < |legs| ==> legs[i] in old' && legs[i] in new'
  {
    if legs == [] then 0
    else
      var k := legs[|legs| - 1];
      Growth(legs[..|legs| - 1], old', new') + new'[k] - old'[k]
  }

  /** The legs read at both ends, each once. */
  ghost predicate Lists(legs: seq<Key>, before: History, now: History) {
    && (forall i, j :: 0 <= i < j < |legs| ==> legs[i] != legs[j])
    && (forall k :: k in legs <==> k in before.controlled && k in now.controlled)
  }

  /** `x` bytes came in that no listed leg received, and that is `rate` bytes a second. */
  ghost predicate Figures(before: History, now: History, legs: seq<Key>, x: nat, rate: nat) {
    var elapsed := now.time - before.time;
    && 0 < elapsed <= 3_000_000_000
    && before.total <= now.total
    && Lists(legs, before, now)
    && (forall i :: 0 <= i < |legs| ==> before.controlled[legs[i]] <= now.controlled[legs[i]])
    && (var unclaimed := now.total - before.total - Growth(legs, before.controlled, now.controlled);
        x == if unclaimed > 0 then unclaimed else 0)
    && rate * elapsed <= x * 1_000_000_000
    && (if rate < U64_MAX then x * 1_000_000_000 < (rate + 1) * elapsed else rate == U64_MAX)
  }

  lemma {:induction false} GrowthIsReceived(legs: seq<Key>, keys: set<Key>, old': map<Key, u64>, new': map<Key, u64>)
    requires forall i, j :: 0 <= i < j < |legs| ==> legs[i] != legs[j]
    requires forall k :: k in keys <==> k in legs
    requires forall i :: 0 <= i < |legs| ==> legs[i] in old' && legs[i] in new' && old'[legs[i]] <= new'[legs[i]]
    ensures forall k :: k in keys ==> k in old' && k in new' && old'[k] <= new'[k]
    ensures Growth(legs, old', new') == Received(keys, old', new')
    decreases |legs|
  {
    if legs == [] {
      assert keys == {};
    } else {
      var front, k := legs[..|legs| - 1], legs[|legs| - 1];
      assert forall x :: x in keys - {k} <==> x in front;
      GrowthIsReceived(front, keys - {k}, old', new');
      ReceivedWithout(keys, old', new', k);
    }
  }

  lemma FiguresAreUsable(before: History, now: History, legs: seq<Key>, x: nat, rate: nat)
    requires Figures(before, now, legs, x, rate)
    ensures Usable(before, now) && OwnerDelta(before, now) == x
  {
    var keys := before.controlled.Keys * now.controlled.Keys;
    assert forall k :: k in keys <==> k in legs;
    GrowthIsReceived(legs, keys, before.controlled, now.controlled);
  }

  lemma RateIsExact(x: nat, elapsed: nat, rate: nat)
    requires elapsed > 0 && rate * elapsed <= x * SECOND
    requires if rate < U64_MAX then x * SECOND < (rate + 1) * elapsed else rate == U64_MAX
    ensures PerSecond(x, elapsed) == rate
  {
    var q := Quotient(x * SECOND, elapsed);
    if rate < U64_MAX {
      assert (rate + 1) * elapsed == rate * elapsed + elapsed;
      SameMultiple(q, rate, elapsed, x * SECOND);
    } else if q < rate {
      MultiplesGrow(q, rate, elapsed);
    }
  }

  lemma FiguresAreMeasured(before: History, now: History, legs: seq<Key>, x: nat, rate: nat)
    requires Figures(before, now, legs, x, rate)
    ensures Usable(before, now) && OwnerDelta(before, now) == x && OwnerRate(before, now) == rate
  {
    FiguresAreUsable(before, now, legs, x, rate);
    RateIsExact(x, now.time - before.time, rate);
  }

  lemma {:induction false} ListKeys(keys: set<Key>) returns (legs: seq<Key>)
    ensures forall i, j :: 0 <= i < j < |legs| ==> legs[i] != legs[j]
    ensures forall k :: k in legs <==> k in keys
    decreases |keys|
  {
    if keys == {} {
      legs := [];
    } else {
      var k :| k in keys;
      legs := ListKeys(keys - {k});
      legs := legs + [k];
    }
  }

  ghost predicate HasFigures(before: History, now: History) {
    exists legs, x, rate :: Figures(before, now, legs, x, rate)
  }

  /** Every measurable interval has its figures, and only those. */
  lemma UsableHasFigures(before: History, now: History)
    ensures Usable(before, now) <==> HasFigures(before, now)
  {
    if Usable(before, now) {
      var legs := ListKeys(before.controlled.Keys * now.controlled.Keys);
      assert forall i :: 0 <= i < |legs| ==> legs[i] in legs;
      var elapsed := now.time - before.time;
      var unclaimed := now.total - before.total - Growth(legs, before.controlled, now.controlled);
      var x := if unclaimed > 0 then unclaimed else 0;
      var q := Quotient(x * SECOND, elapsed);
      var rate := Min(U64_MAX, q);
      assert (rate + 1) * elapsed == rate * elapsed + elapsed;
      if rate < q {
        MultiplesGrow(rate, q, elapsed);
      }
      assert Figures(before, now, legs, x, rate);
    }
    if legs, x, rate :| Figures(before, now, legs, x, rate) {
      FiguresAreUsable(before, now, legs, x, rate);
    }
  }

  /** When a sample shows the owner busy. */
  lemma ActivityInFigures(settings: Settings, samples: seq<History>, n: nat, legs: seq<Key>, x: nat, rate: nat)
    requires 0 < n < |samples| && Figures(samples[n - 1], samples[n], legs, x, rate)
    ensures ActiveAt(settings, samples, n)
       <==> x >= 2048 && rate >= 16_384 && 100 * (rate + 1) > settings.capacity
  {
    FiguresAreMeasured(samples[n - 1], samples[n], legs, x, rate);
  }

  /** Some sample up to `n`, less than a second back, showed the owner busy. */
  ghost predicate BusyLately(settings: Settings, samples: seq<History>, n: nat)
    requires n < |samples|
  {
    exists j :: 0 <= j <= n && ActiveAt(settings, samples, j) && samples[n].time < samples[j].time + 1_000_000_000
  }

  /** The budget of every sample of every run: what the unclaimed bytes leave of the capacity, up to the ceiling, unless
      the owner was busy lately. */
  lemma BudgetInFigures(settings: Settings, samples: seq<History>, n: nat, legs: seq<Key>, x: nat, rate: nat)
    requires ClockAdvances(samples) && 0 < n < |samples| && Figures(samples[n - 1], samples[n], legs, x, rate)
    ensures BudgetAt(settings, samples, n)
         == if BusyLately(settings, samples, n) || rate >= settings.capacity then 0
            else if settings.capacity - rate < settings.ceiling then settings.capacity - rate
            else settings.ceiling
  {
    BudgetIsExact(settings, samples, n);
    FiguresAreMeasured(samples[n - 1], samples[n], legs, x, rate);
    assert BusyLately(settings, samples, n) <==> !QuietSince(settings, samples, n);
  }

  /** Without figures there is no budget, and no sign of the owner. */
  lemma NoFiguresNoBudget(settings: Settings, samples: seq<History>, n: nat)
    requires ClockAdvances(samples) && n < |samples|
    requires n == 0 || !HasFigures(samples[n - 1], samples[n])
    ensures BudgetAt(settings, samples, n) == 0 && !ActiveAt(settings, samples, n)
  {
    BudgetIsExact(settings, samples, n);
    if n > 0 {
      UsableHasFigures(samples[n - 1], samples[n]);
    }
  }

  /** Relayed traffic is not held against the relay: where the legs account for all that came in, all of the capacity is
      there up to the ceiling. */
  lemma RelayedTrafficIsFree(settings: Settings, samples: seq<History>, n: nat, legs: seq<Key>)
    requires ClockAdvances(samples) && 0 < n < |samples| && Figures(samples[n - 1], samples[n], legs, 0, 0)
    requires !BusyLately(settings, samples, n)
    ensures BudgetAt(settings, samples, n)
         == if settings.capacity < settings.ceiling then settings.capacity else settings.ceiling
  {
    BudgetInFigures(settings, samples, n, legs, 0, 0);
  }

  // Owner and relay together

  /** Whatever is allocated, together with the owner's measured rate, stays within the capacity. */
  lemma AllocationLeavesOwnerRoom(settings: Settings, samples: seq<History>, n: nat, caps: seq<u64>)
    requires ClockAdvances(samples) && n < |samples|
    ensures var given := Sum(FairShares.Rates(BudgetAt(settings, samples, n), caps));
      given > 0 ==> IsOpen(settings, samples, n) && given + OwnerRate(samples[n - 1], samples[n]) <= settings.capacity
  {
    BudgetIsExact(settings, samples, n);
    FairShares.RatesUseTheBudget(BudgetAt(settings, samples, n), caps);
  }

  // Classifying less as controlled

  ghost predicate SubMap(part: map<Key, u64>, whole: map<Key, u64>) {
    part.Keys <= whole.Keys && forall k :: k in part ==> part[k] == whole[k]
  }

  /** Same clock and totals; at every sample fewer legs count as controlled, with the same counters. */
  ghost predicate Narrower(less: seq<History>, more: seq<History>) {
    && |less| == |more|
    && (forall i :: 0 <= i < |less| ==> less[i].time == more[i].time && less[i].total == more[i].total
                                         && SubMap(less[i].controlled, more[i].controlled))
  }

  lemma {:induction false} ReceivedBySubset(part: set<Key>, whole: set<Key>, old': map<Key, u64>, new': map<Key, u64>)
    requires part <= whole && forall k :: k in whole ==> k in old' && k in new' && old'[k] <= new'[k]
    ensures Received(part, old', new') <= Received(whole, old', new')
    decreases |part|
  {
    if part == {} {
    } else {
      var k :| k in part;
      ReceivedWithout(part, old', new', k);
      ReceivedWithout(whole, old', new', k);
      ReceivedBySubset(part - {k}, whole - {k}, old', new');
    }
  }

  lemma {:induction false} ReceivedAgrees(
      keys: set<Key>, a: map<Key, u64>, b: map<Key, u64>, a': map<Key, u64>, b': map<Key, u64>)
    requires forall k :: k in keys ==>
               k in a && k in b && a[k] <= b[k] && k in a' && k in b' && a'[k] == a[k] && b'[k] == b[k]
    ensures Received(keys, a, b) == Received(keys, a', b')
    decreases |keys|
  {
    if keys == {} {
    } else {
      var k :| k in keys;
      ReceivedWithout(keys, a, b, k);
      ReceivedWithout(keys, a', b', k);
      ReceivedAgrees(keys - {k}, a, b, a', b');
    }
  }

  /** The same interval with fewer controlled legs. */
  ghost predicate NarrowerInterval(before: History, now: History, before': History, now': History) {
    && before'.time == before.time && before'.total == before.total && SubMap(before'.controlled, before.controlled)
    && now'.time == now.time && now'.total == now.total && SubMap(now'.controlled, now.controlled)
  }

  lemma NarrowerUsable(before: History, now: History, before': History, now': History)
    requires Usable(before, now) && NarrowerInterval(before, now, before', now')
    ensures Usable(before', now')
  {
    assert forall k :: k in before'.controlled && k in now'.controlled ==>
             k in before.controlled && k in now.controlled
             && before.controlled[k] == before'.controlled[k] && now.controlled[k] == now'.controlled[k];
  }

  lemma {:induction false} QuotientIsMonotone(x: nat, y: nat, d: nat)
    requires x <= y && d > 0
    ensures Quotient(x, d) <= Quotient(y, d)
    decreases x
  {
    if x < d {
    } else {
      QuotientIsMonotone(x - d, y - d, d);
    }
  }

  /** With fewer controlled legs, no less traffic is the owner's. */
  lemma NarrowerOwnerRate(before: History, now: History, before': History, now': History)
    requires Usable(before, now) && NarrowerInterval(before, now, before', now')
    ensures Usable(before', now')
    ensures OwnerDelta(before', now') >= OwnerDelta(before, now)
    ensures OwnerRate(before', now') >= OwnerRate(before, now)
  {
    NarrowerUsable(before, now, before', now');
    var part := before'.controlled.Keys * now'.controlled.Keys;
    var whole := before.controlled.Keys * now.controlled.Keys;
    ReceivedAgrees(part, before'.controlled, now'.controlled, before.controlled, now.controlled);
    ReceivedBySubset(part, whole, before.controlled, now.controlled);
    QuotientIsMonotone(OwnerDelta(before, now) * SECOND, OwnerDelta(before', now') * SECOND, now.time - before.time);
  }

  /** Narrowing leaves measurable intervals measurable and only adds owner activity, regressions or not. */
  lemma NarrowerActivity(settings: Settings, less: seq<History>, more: seq<History>, n: nat)
    requires Narrower(less, more) && 0 < n < |more| && Usable(more[n - 1], more[n])
    ensures Usable(less[n - 1], less[n]) && OwnerRate(less[n - 1], less[n]) >= OwnerRate(more[n - 1], more[n])
    ensures ActiveAt(settings, more, n) ==> ActiveAt(settings, less, n)
  {
    assert NarrowerInterval(more[n - 1], more[n], less[n - 1], less[n]);
    NarrowerOwnerRate(more[n - 1], more[n], less[n - 1], less[n]);
  }

  lemma NarrowerIsNoQuieter(settings: Settings, less: seq<History>, more: seq<History>, n: nat)
    requires Narrower(less, more) && n < |more| && QuietSince(settings, less, n)
    ensures QuietSince(settings, more, n)
  {
    forall j | 0 <= j <= n && ActiveAt(settings, more, j) ensures more[j].time + OWNER_IDLE_HOLD <= more[n].time {
      NarrowerActivity(settings, less, more, j);
    }
  }

  /** A counter of a leg that counts as controlled at both ends of the last interval went backwards in it. */
  ghost predicate RegressedAt(samples: seq<History>, n: nat)
    requires n < |samples|
  {
    n > 0 && Regressed(samples[n - 1].controlled, samples[n].controlled)
  }

  /** Without a regression in the last interval, what is open for the narrower run is open for the wider one. */
  lemma NarrowerOpens(settings: Settings, less: seq<History>, more: seq<History>, n: nat)
    requires Narrower(less, more) && n < |more| && IsOpen(settings, less, n)
    ensures IsOpen(settings, more, n) <==> !RegressedAt(more, n)
  {
    NarrowerIsNoQuieter(settings, less, more, n);
  }

  /** There is something to give: the budget is open, the ceiling is not zero and the owner leaves some capacity. */
  ghost predicate HasSomething(settings: Settings, samples: seq<History>, n: nat)
    requires n < |samples|
  {
    IsOpen(settings, samples, n) && settings.ceiling > 0 && OwnerRate(samples[n - 1], samples[n]) < settings.capacity
  }

  /** Conservative classification, across two runs and exactly: counting fewer legs as controlled yields a larger budget
      if and only if the wider run sees a counter go backwards in the last interval while the narrower one has something
      to give. Earlier regressions never matter. */
  lemma NarrowerNeverGetsMore(settings: Settings, less: seq<History>, more: seq<History>, n: nat)
    requires Narrower(less, more) && ClockAdvances(more) && n < |more|
    ensures BudgetAt(settings, less, n) <= BudgetAt(settings, more, n)
       <==> !RegressedAt(more, n) || !HasSomething(settings, less, n)
  {
    BudgetIsExact(settings, less, n);
    BudgetIsExact(settings, more, n);
    if IsOpen(settings, less, n) {
      NarrowerOpens(settings, less, more, n);
      if !RegressedAt(more, n) {
        NarrowerActivity(settings, less, more, n);
      }
    }
  }

  /** The failing case exists: the leg's counter goes backwards, and only the run that watches the leg is closed. */
  lemma RegressionBreaksComparison(k: Key) returns (less: seq<History>, more: seq<History>)
    ensures Narrower(less, more) && ClockAdvances(more) && |more| == 2
    ensures RegressedAt(more, 1) && HasSomething(Settings(1_500_000, 1_000_000), less, 1)
    ensures BudgetAt(Settings(1_500_000, 1_000_000), less, 1) > BudgetAt(Settings(1_500_000, 1_000_000), more, 1)
  {
    var settings := Settings(1_500_000, 1_000_000);
    less := [History(0, 0, map[]), History(SECOND, 0, map[])];
    more := [History(0, 0, map[k := 5]), History(SECOND, 0, map[k := 4])];
    assert k in more[0].controlled && k in more[1].controlled && more[1].controlled[k] < more[0].controlled[k];
    assert Regressed(more[1 - 1].controlled, more[1].controlled);
    assert Usable(less[0], less[1]) && OwnerDelta(less[0], less[1]) == 0;
    assert Quotient(0 * SECOND, SECOND) == 0;
    assert !ActiveAt(settings, less, 0) && !ActiveAt(settings, less, 1);
    assert QuietSince(settings, less, 1);
    NarrowerNeverGetsMore(settings, less, more, 1);
  }

  // The same from raw snapshots

  lemma CountersAppend(rows: seq<Row>, last: Row)
    requires AllCounted(rows) && (last.relayExit ==> last.bytes.Some?)
    ensures AllCounted(rows + [last])
    ensures Counters(rows + [last])
         == if last.relayExit then Counters(rows)[last.key := last.bytes.value] else Counters(rows)
  {
    assert (rows + [last])[..|rows|] == rows;
  }

  lemma {:induction false} KeptCounters(rows: seq<Row>, controlled: set<Key>)
    requires AllCounted(rows)
    ensures AllCounted(Kept(rows, controlled))
    ensures Counters(Kept(rows, controlled)).Keys == Counters(rows).Keys * controlled
    ensures forall k :: k in Counters(Kept(rows, controlled)) ==>
              Counters(Kept(rows, controlled))[k] == Counters(rows)[k]
    decreases |rows|
  {
    if rows == [] {
    } else {
      var front, last := rows[..|rows| - 1], rows[|rows| - 1];
      KeptCounters(front, controlled);
      var kept := Kept(front, controlled);
      if !last.relayExit || last.key in controlled {
        CountersAppend(kept, last);
        assert Kept(rows, controlled) == kept + [last];
      } else {
        assert Kept(rows, controlled) == kept;
      }
    }
  }

  /** Rows kept under fewer grants are those kept of the rows kept under more. */
  lemma {:induction false} KeptTwice(rows: seq<Row>, fewer: set<Key>, controlled: set<Key>)
    requires fewer <= controlled
    ensures Kept(rows, fewer) == Kept(Kept(rows, controlled), fewer)
    decreases |rows|
  {
    if rows == [] {
    } else {
      var front, last := rows[..|rows| - 1], rows[|rows| - 1];
      KeptTwice(front, fewer, controlled);
      if !last.relayExit || last.key in controlled {
        var kept := Kept(front, controlled);
        assert Kept(rows, controlled) == kept + [last];
        assert (kept + [last])[..|kept|] == kept;
      } else {
        assert Kept(rows, controlled) == Kept(front, controlled) && Kept(rows, fewer) == Kept(front, fewer);
      }
    }
  }

  /** Granting fewer legs gives a narrower sample: whatever is accepted with more grants is accepted with fewer. */
  lemma FewerGrantsAreNarrower(rows: seq<Row>, fewer: set<Key>, controlled: set<Key>)
    requires AllCounted(Kept(rows, controlled)) && fewer <= controlled
    ensures AllCounted(Kept(rows, fewer))
    ensures SubMap(Counters(Kept(rows, fewer)), Counters(Kept(rows, controlled)))
  {
    KeptTwice(rows, fewer, controlled);
    KeptCounters(Kept(rows, controlled), fewer);
  }

  /** A snapshot as it arrives, with the time of its arrival. */
  datatype Arrival = Arrival(time: nat, total: u64, rows: seq<Row>)

  /** Every snapshot of the run is complete under its grants, so every one is accepted. */
  predicate AllAccepted(arrivals: seq<Arrival>, grants: seq<set<Key>>) {
    |grants| == |arrivals| && forall i :: 0 <= i < |arrivals| ==> AllCounted(Kept(arrivals[i].rows, grants[i]))
  }

  /** The samples the controller keeps of a run of snapshots under the grants of each. */
  function Sampled(arrivals: seq<Arrival>, grants: seq<set<Key>>): (r: seq<History>)
    requires AllAccepted(arrivals, grants)
    ensures |r| == |arrivals|
  {
    seq(|arrivals|, i requires 0 <= i < |arrivals| =>
      History(arrivals[i].time, arrivals[i].total, Counters(Kept(arrivals[i].rows, grants[i]))))
  }

  predicate FewerGrants(fewer: seq<set<Key>>, grants: seq<set<Key>>) {
    |fewer| == |grants| && forall i :: 0 <= i < |grants| ==> fewer[i] <= grants[i]
  }

  lemma FewerGrantsSampled(arrivals: seq<Arrival>, fewer: seq<set<Key>>, grants: seq<set<Key>>)
    requires AllAccepted(arrivals, grants) && FewerGrants(fewer, grants)
    ensures AllAccepted(arrivals, fewer) && Narrower(Sampled(arrivals, fewer), Sampled(arrivals, grants))
  {
    forall i | 0 <= i < |arrivals|
      ensures AllCounted(Kept(arrivals[i].rows, fewer[i]))
      ensures SubMap(Counters(Kept(arrivals[i].rows, fewer[i])), Counters(Kept(arrivals[i].rows, grants[i])))
    {
      FewerGrantsAreNarrower(arrivals[i].rows, fewer[i], grants[i]);
    }
  }

  /** The comparison from raw snapshots and grants. */
  lemma FewerGrantsNeverGetMore(settings: Settings, arrivals: seq<Arrival>, fewer: seq<set<Key>>,
                                grants: seq<set<Key>>, n: nat)
    requires AllAccepted(arrivals, grants) && FewerGrants(fewer, grants) && n < |arrivals|
    requires forall i, j :: 0 <= i <= j < |arrivals| ==> arrivals[i].time <= arrivals[j].time
    ensures AllAccepted(arrivals, fewer)
    ensures BudgetAt(settings, Sampled(arrivals, fewer), n) <= BudgetAt(settings, Sampled(arrivals, grants), n)
       <==> !RegressedAt(Sampled(arrivals, grants), n) || !HasSomething(settings, Sampled(arrivals, fewer), n)
  {
    FewerGrantsSampled(arrivals, fewer, grants);
    NarrowerNeverGetsMore(settings, Sampled(arrivals, fewer), Sampled(arrivals, grants), n);
  }
}
