/** Synchronous process data: which SYNC makes a transmit PDO go out, and when received data
    is delivered (src/co_pdo.c and src/co_sync.c, CiA 301 sections 7.2.2.3 and 7.2.5). */
module PdoSync {
  import opened Bytes
  import opened Bits
  import opened Dictionary
  import opened PdoFrame
  import opened PdoConfig
  import Nmt

  datatype Msg = Msg(id: U32, data: Payload)

  /** The slots in use. */
  function Used(p: Pdo): seq<Slot> {
    p.slots[..Min(p.count, MAX_PDO_ENTRIES)]
  }

  function Sampled(env: Env, st: Store, p: Pdo): Pdo {
    p.(frame := Packed(p.frame, Fields(env, st, Used(p))))
  }

  /** The message of a sampled frame, with its 29-bit identifier and frame format bit. */
  function Message(p: Pdo): Msg {
    Msg(p.cobid % 0x4000_0000, Sent(p.frame, p.bitlength))
  }

  /** An event-driven PDO waits for its inhibit time of 100 us units. */
  predicate Inhibited(p: Pdo, now: nat) {
    IsEvent(p.transmission) && p.inhibit > 0 && now - p.timestamp < 100 * p.inhibit
  }

  function Transmit(env: Env, st: Store, p: Pdo, now: nat): (seq<Msg>, Pdo) {
    if Inhibited(p, now) then ([], p)
    else
      var q := Sampled(env, st, p);
      ([Message(q)], q.(timestamp := now, queued := false))
  }

  /** Whether SYNC start still holds a PDO back. */
  predicate HeldBack(p: Pdo, overflow: Byte, counter: Byte) {
    p.syncWait && overflow != 0 && !(IsCyclic(p.syncStart) && counter == p.syncStart)
  }

  /** A transmit PDO at a SYNC. */
  function SyncTx(env: Env, st: Store, p: Pdo, now: nat, overflow: Byte, counter: Byte): (seq<Msg>, Pdo) {
    if !Enabled(p) then ([], p)
    else if p.queued then Transmit(env, st, p, now)
    else if IsCyclic(p.transmission) then
      if HeldBack(p, overflow, counter) then ([], p)
      else
        var q := p.(syncWait := false, syncCounter := (p.syncCounter + 1) % 0x100);
        if q.syncCounter == q.transmission then
          var (sent, r) := Transmit(env, st, q, now);
          (sent, r.(syncCounter := 0))
        else ([], q)
    else if p.transmission == 0xFC then ([], Sampled(env, st, p))
    else ([], p)
  }

  /** A receive PDO at a SYNC. */
  function SyncRx(env: Env, st: Store, p: Pdo): (Store, Pdo) {
    if p.queued then
      (Delivered(env, st, Used(p), Contents(p.frame, Used(p))), p.(queued := false))
    else (st, p)
  }

  // ----- the schedule of a cyclic PDO

  /** What one SYNC finds: the store and time, which do not matter for the schedule, and the
      SYNC counter. */
  datatype Sync = Sync(st: Store, now: nat, overflow: Byte, counter: Byte)

  /** Messages sent over a run of SYNCs, and the PDO after it. */
  function Play(env: Env, p: Pdo, syncs: seq<Sync>): (nat, Pdo)
    decreases |syncs|
  {
    if syncs == [] then (0, p)
    else
      var n := |syncs| - 1;
      var (sent, q) := Play(env, p, syncs[..n]);
      var (out, r) := SyncTx(env, syncs[n].st, q, syncs[n].now, syncs[n].overflow, syncs[n].counter);
      (sent + |out|, r)
  }

  predicate Cyclic(p: Pdo) {
    Enabled(p) && !p.queued && IsCyclic(p.transmission)
  }

  /** SYNCs until the next transmission: the counter has eight bits and only compares equal. */
  function UntilNext(p: Pdo): (d: nat)
    requires Cyclic(p)
    ensures d >= 1
  {
    if p.syncCounter < p.transmission then p.transmission - p.syncCounter
    else 0x100 - p.syncCounter + p.transmission
  }

  lemma NextQuotient(m: nat, n: nat)
    requires n > 0
    ensures (m + 1) / n == m / n + if m % n == n - 1 then 1 else 0
    ensures (m + 1) % n == if m % n == n - 1 then 0 else m % n + 1
  {
    var q, r := m / n, m % n;
    assert m == q * n + r;
    if r == n - 1 {
      assert (q + 1) * n == q * n + n;
      ModUnique(m + 1, n, q + 1, 0);
    } else {
      ModUnique(m + 1, n, q, r + 1);
    }
  }

  /** Sent and counted after `k` SYNCs that are not held back. */
  predicate Scheduled(p: Pdo, k: nat, sent: nat, q: Pdo)
    requires Cyclic(p)
  {
    var d := UntilNext(p);
    && Cyclic(q) && q.transmission == p.transmission && !q.syncWait
    && (if k < d then sent == 0 && q.syncCounter == (p.syncCounter + k) % 0x100
        else sent == 1 + (k - d) / p.transmission && q.syncCounter == (k - d) % p.transmission)
  }

  /** One SYNC that does not hold the PDO back. */
  lemma Ticks(env: Env, q: Pdo, s: Sync)
    requires Cyclic(q) && !q.syncWait
    ensures var (out, r) := SyncTx(env, s.st, q, s.now, s.overflow, s.counter);
            var due := (q.syncCounter + 1) % 0x100 == q.transmission;
            && Cyclic(r) && r.transmission == q.transmission && !r.syncWait
            && |out| == (if due then 1 else 0)
            && r.syncCounter == if due then 0 else (q.syncCounter + 1) % 0x100
  {
    hide Packed, Fields, Sent;
  }

  lemma ScheduledStep(env: Env, p: Pdo, k: nat, sent: nat, q: Pdo, s: Sync)
    requires Cyclic(p) && Scheduled(p, k, sent, q)
    ensures var (out, r) := SyncTx(env, s.st, q, s.now, s.overflow, s.counter);
            Scheduled(p, k + 1, sent + |out|, r)
  {
    if k < UntilNext(p) {
      BeforeFirst(env, p, k, sent, q, s);
    } else {
      AfterFirst(env, p, k, sent, q, s);
    }
  }

  lemma BeforeFirst(env: Env, p: Pdo, k: nat, sent: nat, q: Pdo, s: Sync)
    requires Cyclic(p) && Scheduled(p, k, sent, q) && k < UntilNext(p)
    ensures var (out, r) := SyncTx(env, s.st, q, s.now, s.overflow, s.counter);
            Scheduled(p, k + 1, sent + |out|, r)
  {
    hide SyncTx;
    Ticks(env, q, s);
    if k + 1 == UntilNext(p) {
      ModUnique(0, p.transmission, 0, 0);
    }
  }

  lemma AfterFirst(env: Env, p: Pdo, k: nat, sent: nat, q: Pdo, s: Sync)
    requires Cyclic(p) && Scheduled(p, k, sent, q) && k >= UntilNext(p)
    ensures var (out, r) := SyncTx(env, s.st, q, s.now, s.overflow, s.counter);
            Scheduled(p, k + 1, sent + |out|, r)
  {
    hide SyncTx, UntilNext;
    Ticks(env, q, s);
    NextQuotient(k - UntilNext(p), p.transmission);
  }

  /** Once free, a cyclic PDO goes out after the first UntilNext SYNCs and at every
      `transmission`-th SYNC from then on, whatever the SYNC counters are. */
  lemma {:induction false} CyclicSchedule(env: Env, p: Pdo, syncs: seq<Sync>)
    requires Cyclic(p) && !p.syncWait
    ensures var (sent, q) := Play(env, p, syncs);
            Scheduled(p, |syncs|, sent, q)
    decreases |syncs|
  {
    hide SyncTx, Scheduled, UntilNext;
    if syncs == [] {
      ScheduledStart(p);
    } else {
      var n := |syncs| - 1;
      CyclicSchedule(env, p, syncs[..n]);
      var (sent, q) := Play(env, p, syncs[..n]);
      ScheduledStep(env, p, n, sent, q, syncs[n]);
    }
  }

  lemma ScheduledStart(p: Pdo)
    requires Cyclic(p) && !p.syncWait
    ensures Scheduled(p, 0, 0, p)
  {
  }

  /** From counter zero, `k` SYNCs cause exactly k / N transmissions. */
  lemma {:induction false} EveryNth(env: Env, p: Pdo, syncs: seq<Sync>)
    requires Cyclic(p) && !p.syncWait && p.syncCounter == 0
    ensures Play(env, p, syncs).0 == |syncs| / p.transmission
  {
    hide Play;
    CyclicSchedule(env, p, syncs);
    var k, n := |syncs|, p.transmission;
    if k < n {
      ModUnique(k, n, 0, k);
    } else {
      OneMore(k - n, n);
    }
  }

  lemma OneMore(m: nat, n: nat)
    requires n > 0
    ensures (m + n) / n == m / n + 1 && (m + n) % n == m % n
  {
    var q, r := m / n, m % n;
    assert m == q * n + r;
    assert (q + 1) * n == q * n + n;
    ModUnique(m + n, n, q + 1, r);
  }

  // ----- the SYNC producer

  /** The counter after a SYNC has been produced with overflow value `overflow`. */
  function NextCounter(counter: Byte, overflow: Byte): Byte {
    if counter == overflow then 1 else (counter + 1) % 0x100
  }

  /** The settings and state of the producer: objects 1005h, 1006h and 1019h, the next counter, and
      the time of the last SYNC. */
  datatype Producer = Producer(cobid: U32, counter: Byte, overflow: Byte, period: U32, timestamp: nat)

  /** One look at the timer: a SYNC to send, if one is due, numbered if an overflow value is set. */
  function Tick(p: Producer, state: Nmt.State, now: nat): (Option<Msg>, Producer) {
    if (state != Nmt.Preop && state != Nmt.Op) || p.cobid / 0x4000_0000 % 2 == 0 || p.period == 0
       || now - p.timestamp < p.period then (None, p)
    else
      (Some(Msg(p.cobid % 0x4000_0000, if p.overflow != 0 then [p.counter] else [])),
       p.(timestamp := now, counter := if p.overflow != 0 then NextCounter(p.counter, p.overflow) else p.counter))
  }

  /** The counter of the k-th SYNC from now. */
  function Emitted(counter: Byte, overflow: Byte, k: nat): Byte {
    if k == 0 then counter else NextCounter(Emitted(counter, overflow, k - 1), overflow)
  }

  /** SYNCs before the counter is in 1..overflow: an overflow value may be set below the counter,
      which then runs through 255 and 0. */
  function UntilCycle(counter: Byte, overflow: Byte): nat {
    if counter == 0 then 1 else if counter <= overflow then 0 else 0x101 - counter
  }

  lemma EmittedNext(counter: Byte, overflow: Byte, k: nat)
    ensures Emitted(counter, overflow, 0) == counter
    ensures k > 0 ==> Emitted(counter, overflow, k) == NextCounter(Emitted(counter, overflow, k - 1), overflow)
  {
  }

  /** The counter `m` SYNCs after 1, within 1..overflow. */
  function Lap(m: nat, overflow: Byte): nat
    requires overflow >= 1
  {
    1 + m % overflow
  }

  lemma NextLap(m: nat, overflow: Byte)
    requires overflow >= 1
    ensures 1 <= Lap(m, overflow) <= overflow && NextCounter(Lap(m, overflow), overflow) == Lap(m + 1, overflow)
    ensures m < overflow ==> Lap(m, overflow) == m + 1
  {
    NextQuotient(m, overflow);
    if m < overflow {
      ModUnique(m, overflow, 0, m);
    }
  }

  /** Within 1..overflow the counters stay there and go round. */
  lemma {:induction false} GoesRound(counter: Byte, overflow: Byte, k: nat)
    requires 1 <= counter <= overflow
    ensures Emitted(counter, overflow, k) == Lap(counter - 1 + k, overflow)
    ensures 1 <= Emitted(counter, overflow, k) <= overflow
  {
    hide Emitted, NextCounter, Lap;
    EmittedNext(counter, overflow, k);
    NextLap(counter - 1 + k, overflow);
    if k > 0 {
      GoesRound(counter, overflow, k - 1);
      NextLap(counter - 1 + k - 1, overflow);
    }
  }

  lemma {:induction false} RunsUp(counter: Byte, overflow: Byte, k: nat)
    requires overflow >= 1 && k <= UntilCycle(counter, overflow)
    ensures Emitted(counter, overflow, k)
         == if k < UntilCycle(counter, overflow) then (counter + k) % 0x100 else if k == 0 then counter else 1
  {
    hide Emitted;
    EmittedNext(counter, overflow, k);
    if k > 0 {
      RunsUp(counter, overflow, k - 1);
    }
  }

  lemma {:induction false} EmittedLater(counter: Byte, overflow: Byte, d: nat, m: nat)
    ensures Emitted(counter, overflow, d + m) == Emitted(Emitted(counter, overflow, d), overflow, m)
  {
    if m > 0 {
      EmittedLater(counter, overflow, d, m - 1);
    }
  }

  /** From any counter, the counters count up to 255 and 0 until they are in 1..overflow, and then
      stay there and go round. */
  lemma CounterCycles(counter: Byte, overflow: Byte, k: nat)
    requires overflow >= 1
    ensures var d := UntilCycle(counter, overflow);
            var e := Emitted(counter, overflow, k);
            if k < d then e == (counter + k) % 0x100 && !(1 <= e <= overflow)
            else 1 <= e <= overflow && e == 1 + ((if d == 0 then counter - 1 else 0) + k - d) % overflow
  {
    hide Emitted;
    var d := UntilCycle(counter, overflow);
    if k < d {
      RunsUp(counter, overflow, k);
    } else {
      RunsUp(counter, overflow, d);
      EmittedLater(counter, overflow, d, k - d);
      GoesRound(Emitted(counter, overflow, d), overflow, k - d);
    }
  }

  lemma CounterPeriod(counter: Byte, overflow: Byte, k: nat)
    requires overflow >= 1 && k >= UntilCycle(counter, overflow)
    ensures Emitted(counter, overflow, k + overflow) == Emitted(counter, overflow, k)
  {
    hide Emitted;
    var d := UntilCycle(counter, overflow);
    CounterCycles(counter, overflow, k);
    CounterCycles(counter, overflow, k + overflow);
    OneMore((if d == 0 then counter - 1 else 0) + k - d, overflow);
  }

  /** The producer gets to number a SYNC `start`: in its cycle, or on the way up to it from a
      counter above the overflow value. */
  predicate Comes(counter: Byte, overflow: Byte, start: Byte) {
    start >= 1 && (start <= overflow || overflow < counter <= start)
  }

  /** SYNCs produced before the first one numbered `start`. */
  function Before(counter: Byte, overflow: Byte, start: Byte): (r: nat)
    requires Comes(counter, overflow, start)
    ensures r < 0x100
    ensures 1 <= counter <= overflow ==> r < overflow
  {
    if start > overflow || 1 <= counter <= start <= overflow then start - counter
    else if 1 <= counter <= overflow then overflow - counter + start
    else UntilCycle(counter, overflow) + start - 1
  }

  lemma FirstOccurrence(counter: Byte, overflow: Byte, start: Byte, k: nat)
    requires overflow >= 1 && Comes(counter, overflow, start)
    ensures k < Before(counter, overflow, start) ==> Emitted(counter, overflow, k) != start
    ensures k == Before(counter, overflow, start) ==> Emitted(counter, overflow, k) == start
  {
    hide Emitted;
    CounterCycles(counter, overflow, k);
    var d := UntilCycle(counter, overflow);
    if d <= k <= Before(counter, overflow, start) {
      var m := (if d == 0 then counter - 1 else 0) + k - d;
      if m < overflow {
        ModUnique(m, overflow, 0, m);
      } else {
        ModUnique(m, overflow, 1, m - overflow);
      }
    }
  }

  lemma NeverComes(counter: Byte, overflow: Byte, start: Byte, k: nat)
    requires overflow >= 1 && start >= 1 && !Comes(counter, overflow, start)
    ensures Emitted(counter, overflow, k) != start
  {
    hide Emitted;
    CounterCycles(counter, overflow, k);
  }

  // ----- SYNC start together with the producer

  /** SYNCs as a producer with a fixed overflow value numbers them; without one they have no
      number. */
  predicate Produced(syncs: seq<Sync>, counter: Byte, overflow: Byte) {
    forall i | 0 <= i < |syncs| ::
      syncs[i].overflow == overflow && (overflow != 0 ==> syncs[i].counter == Emitted(counter, overflow, i))
  }

  predicate Waiting(p: Pdo) {
    Cyclic(p) && p.syncWait
  }

  /** The producer releases a PDO with this SYNC start: SYNCs are not numbered, or one is numbered
      with it. */
  predicate Reachable(counter: Byte, overflow: Byte, start: Byte) {
    overflow == 0 || (IsCyclic(start) && Comes(counter, overflow, start))
  }

  /** SYNCs before the releasing one. */
  function Wait(counter: Byte, overflow: Byte, start: Byte): (r: nat)
    requires Reachable(counter, overflow, start)
    ensures r < 0x100
    ensures 1 <= counter <= overflow ==> r < overflow
  {
    if overflow == 0 then 0 else Before(counter, overflow, start)
  }

  lemma HeldBackStays(env: Env, st: Store, p: Pdo, now: nat, overflow: Byte, counter: Byte)
    requires Waiting(p) && HeldBack(p, overflow, counter)
    ensures SyncTx(env, st, p, now, overflow, counter) == ([], p)
  {
    hide Transmit;
  }

  lemma {:induction false} StillWaiting(env: Env, p: Pdo, syncs: seq<Sync>, counter: Byte, overflow: Byte)
    requires Waiting(p) && Produced(syncs, counter, overflow)
    requires Reachable(counter, overflow, p.syncStart) ==> |syncs| <= Wait(counter, overflow, p.syncStart)
    ensures Play(env, p, syncs) == (0, p)
    decreases |syncs|
  {
    hide Emitted, Before, SyncTx;
    if syncs != [] {
      var n := |syncs| - 1;
      StillWaiting(env, p, syncs[..n], counter, overflow);
      if Reachable(counter, overflow, p.syncStart) {
        FirstOccurrence(counter, overflow, p.syncStart, n);
      } else if IsCyclic(p.syncStart) {
        NeverComes(counter, overflow, p.syncStart, n);
      }
      HeldBackStays(env, syncs[n].st, p, syncs[n].now, overflow, syncs[n].counter);
    }
  }

  lemma Freed(env: Env, p: Pdo, s: Sync)
    requires Waiting(p) && (s.overflow == 0 || (IsCyclic(p.syncStart) && s.counter == p.syncStart))
    ensures SyncTx(env, s.st, p, s.now, s.overflow, s.counter)
         == SyncTx(env, s.st, p.(syncWait := false), s.now, s.overflow, s.counter)
  {
    hide Transmit;
  }

  /** From the releasing SYNC on, the PDO does what it would do had it never waited. */
  lemma {:induction false} Released(env: Env, p: Pdo, syncs: seq<Sync>, counter: Byte, overflow: Byte)
    requires Waiting(p) && Produced(syncs, counter, overflow)
    requires Reachable(counter, overflow, p.syncStart) && |syncs| > Wait(counter, overflow, p.syncStart)
    ensures Play(env, p, syncs)
         == Play(env, p.(syncWait := false), syncs[Wait(counter, overflow, p.syncStart)..])
    decreases |syncs|
  {
    hide SyncTx, Emitted, Before, Waiting;
    var r := Wait(counter, overflow, p.syncStart);
    var n := |syncs| - 1;
    assert syncs[r..][..n - r] == syncs[..n][r..];
    if n == r {
      StillWaiting(env, p, syncs[..n], counter, overflow);
      if overflow != 0 {
        FirstOccurrence(counter, overflow, p.syncStart, n);
      }
      Freed(env, p, syncs[n]);
    } else {
      Released(env, p, syncs[..n], counter, overflow);
    }
  }

  /** A waiting PDO whose SYNC start the producer reaches - from any counter, in its cycle or on
      the way up to it - is untouched until then, within one cycle if the counter is in it and
      within 256 SYNCs otherwise; from then on it is on schedule, counting the releasing SYNC as
      its first. */
  lemma WaitsThenCycles(env: Env, p: Pdo, syncs: seq<Sync>, counter: Byte, overflow: Byte)
    requires Waiting(p) && Produced(syncs, counter, overflow)
    requires Reachable(counter, overflow, p.syncStart)
    ensures var r := Wait(counter, overflow, p.syncStart);
            var (sent, q) := Play(env, p, syncs);
            && r < 0x100 && (1 <= counter <= overflow ==> r < overflow)
            && (|syncs| <= r ==> sent == 0 && q == p)
            && (|syncs| > r ==> Scheduled(p, |syncs| - r, sent, q))
            && (|syncs| > r && p.syncCounter == 0 ==> sent == (|syncs| - r) / p.transmission)
  {
    hide Play, Wait, Produced, Scheduled, Reachable;
    var r := Wait(counter, overflow, p.syncStart);
    if |syncs| <= r {
      StillWaiting(env, p, syncs, counter, overflow);
    } else {
      var free := p.(syncWait := false);
      Released(env, p, syncs, counter, overflow);
      CyclicSchedule(env, free, syncs[r..]);
      SameSchedule(p, |syncs| - r, Play(env, free, syncs[r..]));
      if p.syncCounter == 0 {
        EveryNth(env, free, syncs[r..]);
      }
    }
  }

  lemma SameSchedule(p: Pdo, k: nat, played: (nat, Pdo))
    requires Waiting(p) && Scheduled(p.(syncWait := false), k, played.0, played.1)
    ensures Scheduled(p, k, played.0, played.1)
  {
  }

  lemma ScheduledIsFree(p: Pdo, k: nat, played: (nat, Pdo))
    requires Cyclic(p) && Scheduled(p, k, played.0, played.1)
    ensures !played.1.syncWait
  {
  }

  /** Over a full cycle of the counter, or 256 SYNCs if it starts outside its cycle, a waiting PDO
      is released exactly if its SYNC start is reached; otherwise it never sends. */
  lemma ReleasedIffReachable(env: Env, p: Pdo, syncs: seq<Sync>, counter: Byte, overflow: Byte)
    requires Waiting(p) && Produced(syncs, counter, overflow)
    requires |syncs| >= if 1 <= counter <= overflow then overflow else 0x100
    ensures !Play(env, p, syncs).1.syncWait <==> Reachable(counter, overflow, p.syncStart)
    ensures !Reachable(counter, overflow, p.syncStart) ==> Play(env, p, syncs).0 == 0
  {
    hide Play, Produced, Reachable;
    if Reachable(counter, overflow, p.syncStart) {
      WaitsThenCycles(env, p, syncs, counter, overflow);
      var r := Wait(counter, overflow, p.syncStart);
      ScheduledIsFree(p, |syncs| - r, Play(env, p, syncs));
    } else {
      StillWaiting(env, p, syncs, counter, overflow);
    }
  }

  /** A start above the overflow value is reached from a counter between the two, although the
      cycle never contains it. */
  lemma ReachedOnTheWayUp(counter: Byte, overflow: Byte, start: Byte)
    requires overflow >= 1 && IsCyclic(start) && overflow < counter <= start
    ensures Emitted(counter, overflow, start - counter) == start
    ensures forall k | k > start - counter :: Emitted(counter, overflow, k) != start
  {
    hide Emitted;
    CounterStays(counter, overflow, start - counter);
    forall k: nat | k > start - counter
      ensures Emitted(counter, overflow, k) != start
    {
      CounterStays(counter, overflow, k);
    }
  }

  /** Above the overflow value the counters count up, and once below they stay there. */
  lemma CounterStays(counter: Byte, overflow: Byte, k: nat)
    requires 1 <= overflow < counter
    ensures var e := Emitted(counter, overflow, k);
            if k < 0x101 - counter then e == (counter + k) % 0x100 else 1 <= e <= overflow
  {
    hide Emitted;
    CounterCycles(counter, overflow, k);
  }

  // ----- frames from the bus

  /** What a receive PDO is told about SYNC: the window length and the time of the last SYNC. */
  datatype Window = Window(length: nat, since: nat)

  predicate TooLate(p: Pdo, w: Window, now: nat) {
    p.transmission <= 0xF0 && w.length > 0 && now - w.since >= w.length
  }

  /** The PDO after copying a message into its frame. */
  function Buffered(p: Pdo, msg: Payload, now: nat): Pdo
  {
    var q := p.(frame := Received(p.frame, msg), timestamp := now);
    if q.eventTimer > 0 then q.(monitoring := true, timedOut := false) else q
  }

  /** A receive PDO at a data frame: whether it reports the frame as too short, the store, and
      the PDO. */
  function Receive(env: Env, st: Store, p: Pdo, id: U32, msg: Payload, now: nat, w: Window): (bool, Store, Pdo)
  {
    if p.cobid != id then (false, st, p)
    else if ByteLength(p.bitlength) > |msg| then (true, st, p)
    else if TooLate(p, w, now) then (false, st, p)
    else
      var q := Buffered(p, msg, now);
      if IsEvent(q.transmission) then
        (false, Delivered(env, st, Used(q), Contents(q.frame, Used(q))), q)
      else (false, st, q.(queued := true))
  }

  /** A transmit PDO at a remote request. */
  function Request(env: Env, st: Store, p: Pdo, id: U32, now: nat): (seq<Msg>, Pdo) {
    if p.cobid != id then ([], p)
    else if IsEvent(p.transmission) || p.transmission == 0xFD then Transmit(env, st, p, now)
    else if p.transmission <= 0xF0 || p.transmission == 0xFC then
      ([Msg(p.cobid, Sent(p.frame, p.bitlength))], p.(timestamp := now, queued := false))
    else ([], p)
  }

  /** A restored PDO takes no part in anything but the delivery of a frame queued before. */
  lemma RestoredIsInert(env: Env, st: Store, p: Pdo, rx: bool, node: Byte, id: U32, msg: Payload, now: nat, w: Window,
                        overflow: Byte, counter: Byte)
    requires id < COBID_INVALID
    ensures var q := RestoredComm(p, rx, node);
            && SyncTx(env, st, q, now, overflow, counter) == ([], q)
            && Request(env, st, q, id, now) == ([], q)
            && Receive(env, st, q, id, msg, now, w) == (false, st, q)
            && SyncRx(env, st, q)
               == if p.queued
                  then (Delivered(env, st, Used(p), Contents(p.frame, Used(p))), q.(queued := false)) else (st, q)
  {
  }

  // ----- what a remote request is answered with

  /** Every field of the frame holds a value of this store. */
  predicate Shows(env: Env, st: Store, slots: seq<Slot>, frame: Word64) {
    forall i | 0 <= i < |slots| ::
      && var start := Bitlength(slots[..i]);
      && var end := start + MappedLength(slots[i].mapping);
      && end <= 64
      && Num(frame[start..end]) == NumberOf(env, st, slots[i]) % Pow2(MappedLength(slots[i].mapping))
  }

  lemma SampledShows(env: Env, st: Store, slots: seq<Slot>, buffer: Word64)
    requires Bitlength(slots) <= 64
    ensures Shows(env, st, slots, Packed(buffer, Fields(env, st, slots)))
  {
    hide Packed, Num, Pow2, Total, Bitlength, ValueOf, NumberOf;
    var fs := Fields(env, st, slots);
    TotalIsBitlength(env, st, slots);
    forall i: nat | i < |slots|
      ensures var start := Bitlength(slots[..i]);
              var end := start + MappedLength(slots[i].mapping);
              end <= 64 && Num(Packed(buffer, fs)[start..end])
                           == NumberOf(env, st, slots[i]) % Pow2(MappedLength(slots[i].mapping))
    {
      TotalPrefix(env, st, slots, i);
      SlotIsValue(buffer, fs, i);
      ValueIsNumber(env, st, slots[i]);
    }
  }

  /** An event-driven PDO, or one for requests at any time, is answered with the values of now. */
  lemma RequestShowsNow(env: Env, st: Store, p: Pdo, now: nat)
    requires Consistent(p) && p.cobid < 0x4000_0000 && !Inhibited(p, now)
    requires IsEvent(p.transmission) || p.transmission == 0xFD
    ensures var (sent, q) := Request(env, st, p, p.cobid, now);
            sent == [Msg(p.cobid, Sent(q.frame, p.bitlength))] && Shows(env, st, Used(p), q.frame)
  {
    hide Packed, Fields, Sent, Shows, Bitlength;
    SampledShows(env, st, Used(p), p.frame);
  }

  /** A PDO for requests after SYNC is answered with the values at the last SYNC, whatever has
      changed since. */
  lemma RequestShowsLastSync(env: Env, p: Pdo, syncs: seq<Sync>, st: Store, now: nat)
    requires Consistent(p) && Enabled(p) && p.transmission == 0xFC && syncs != []
    ensures var q := Play(env, p, syncs).1;
            && Request(env, st, q, p.cobid, now).0 == [Msg(p.cobid, Sent(q.frame, p.bitlength))]
            && Shows(env, syncs[|syncs| - 1].st, Used(p), q.frame)
  {
    hide Packed, Fields, Sent, Shows, Bitlength, Play;
    var n := |syncs| - 1;
    RtrKeeps(env, p, syncs[..n]);
    RtrKeeps(env, p, syncs);
    var q := Play(env, p, syncs[..n]).1;
    SampledShows(env, syncs[n].st, Used(p), q.frame);
    PlayLast(env, p, syncs);
  }

  lemma PlayLast(env: Env, p: Pdo, syncs: seq<Sync>)
    requires syncs != []
    ensures var n := |syncs| - 1;
            var s := syncs[n];
            Play(env, p, syncs).1 == SyncTx(env, s.st, Play(env, p, syncs[..n]).1, s.now, s.overflow, s.counter).1
  {
    hide SyncTx;
  }

  lemma {:induction false} RtrKeeps(env: Env, p: Pdo, syncs: seq<Sync>)
    requires Enabled(p) && p.transmission == 0xFC
    ensures var q := Play(env, p, syncs).1;
            && q.cobid == p.cobid && q.transmission == p.transmission
            && q.slots == p.slots && q.count == p.count && q.bitlength == p.bitlength
    decreases |syncs|
  {
    hide Packed, Fields, Sent;
    if syncs != [] {
      RtrKeeps(env, p, syncs[..|syncs| - 1]);
    }
  }

  /** The messages of a run of SYNCs. */
  function Messages(env: Env, p: Pdo, syncs: seq<Sync>): seq<Msg>
    decreases |syncs|
  {
    if syncs == [] then []
    else
      var n := |syncs| - 1;
      var s := syncs[n];
      Messages(env, p, syncs[..n])
      + SyncTx(env, s.st, Play(env, p, syncs[..n]).1, s.now, s.overflow, s.counter).0
  }

  /** One SYNC of a cyclic PDO: what it sends is what its frame then holds, and if it sends nothing
      the frame stays. */
  lemma CyclicFrame(env: Env, q: Pdo, s: Sync)
    requires Cyclic(q)
    ensures var (out, r) := SyncTx(env, s.st, q, s.now, s.overflow, s.counter);
            && Cyclic(r) && r.cobid == q.cobid && r.bitlength == q.bitlength
            && (out == [] ==> r.frame == q.frame)
            && (out != [] ==> out[|out| - 1].data == Sent(r.frame, r.bitlength))
  {
    hide Packed, Fields, Sent;
  }

  lemma {:induction false} FrameIsLastSent(env: Env, p: Pdo, syncs: seq<Sync>)
    requires Cyclic(p)
    ensures var q := Play(env, p, syncs).1;
            var ms := Messages(env, p, syncs);
            && Cyclic(q) && q.cobid == p.cobid
            && (ms != [] ==> ms[|ms| - 1].data == Sent(q.frame, q.bitlength))
            && (ms == [] ==> q.frame == p.frame && q.bitlength == p.bitlength)
    decreases |syncs|
  {
    hide SyncTx, Cyclic, Sent;
    if syncs != [] {
      var n := |syncs| - 1;
      FrameIsLastSent(env, p, syncs[..n]);
      CyclicFrame(env, Play(env, p, syncs[..n]).1, syncs[n]);
    }
  }

  /** A cyclic PDO is answered with what it sent last, which may be many SYNCs ago. */
  lemma RequestRepeatsLast(env: Env, p: Pdo, syncs: seq<Sync>, st: Store, now: nat)
    requires Cyclic(p) && Messages(env, p, syncs) != []
    ensures var ms := Messages(env, p, syncs);
            Request(env, st, Play(env, p, syncs).1, p.cobid, now).0 == [Msg(p.cobid, ms[|ms| - 1].data)]
  {
    hide Play, Messages, Sent;
    FrameIsLastSent(env, p, syncs);
  }

  // ----- process data from node to node

  /** A receive PDO set up for what a transmit PDO sends. */
  predicate Linked(p: Pdo, q: Pdo) {
    && Consistent(p) && Consistent(q) && SameLengths(Used(p), Used(q))
    && q.cobid == p.cobid % 0x4000_0000
    && DistinctKeys(Used(q)) && forall s | s in Used(q) :: WideEnough(s)
  }

  /** Every stored value of the receiver is the sender's number when it was sampled, modulo the
      size of its field; all other storage is as before. Access functions are told the same
      numbers, and the values set are notified. */
  predicate Transferred(env: Env, st: Store, tx: seq<Slot>, before: Store, after: Store, rx: seq<Slot>)
    requires SameLengths(tx, rx)
  {
    && (forall i | 0 <= i < |rx| && Stores(rx[i]) ::
          Le(Memory(after, SlotKey(rx[i]))) == NumberOf(env, st, tx[i]) % Pow2(MappedLength(tx[i].mapping)))
    && (forall k | k in before.mem.Keys + after.mem.Keys && forall s | s in rx && Stores(s) :: SlotKey(s) != k
          :: Memory(after, k) == Memory(before, k))
    && after.log == before.log + TransferTells(env, st, tx, rx)
    && after.notified == before.notified + Notified(rx)
  }

  /** A synchronous receive PDO delivers at the next SYNC what the transmit PDO of another node
      sampled for the message in between; an event-driven one delivers at once. */
  lemma NodeToNode(env: Env, st: Store, p: Pdo, now: nat, env': Env, st': Store, q: Pdo, now': nat, w: Window)
    requires Linked(p, q) && !Inhibited(p, now) && !TooLate(q, w, now')
    ensures var msg := Transmit(env, st, p, now).0[0];
            var (short, mid, r) := Receive(env', st', q, msg.id, msg.data, now', w);
            var end := if r.queued && !IsEvent(q.transmission) then SyncRx(env', mid, r).0 else mid;
            && !short && (IsEvent(q.transmission) || (r.queued && mid == st'))
            && Transferred(env, st, Used(p), st', end, Used(q))
  {
    hide Packed, Fields, Sent, Received, Contents, Delivered;
    hide SameLengths, DistinctKeys, WideEnough, Transferred, Consistent;
    LinkedLengths(p, q);
    var frame := Received(q.frame, Sent(Packed(p.frame, Fields(env, st, Used(p))), p.bitlength));
    ProcessDataRoundTrip(env, st, Used(p), p.frame, env', st', Used(q), q.frame);
    TransferredBy(env, st, Used(p), st', Delivered(env', st', Used(q), Contents(frame, Used(q))), Used(q));
  }

  lemma LinkedLengths(p: Pdo, q: Pdo)
    requires Linked(p, q)
    ensures p.bitlength == q.bitlength == Bitlength(Used(p)) <= 64
  {
    SameBitlength(Used(p), Used(q), |Used(p)|);
    assert Used(p)[..|Used(p)|] == Used(p) && Used(q)[..|Used(q)|] == Used(q);
  }

  lemma TransferredBy(env: Env, st: Store, tx: seq<Slot>, before: Store, after: Store, rx: seq<Slot>)
    requires SameLengths(tx, rx)
    requires forall i | 0 <= i < |rx| && Stores(rx[i]) ::
               Le(Memory(after, SlotKey(rx[i]))) == NumberOf(env, st, tx[i]) % Pow2(MappedLength(tx[i].mapping))
    requires forall k | forall s | s in rx && Stores(s) :: SlotKey(s) != k :: Memory(after, k) == Memory(before, k)
    requires after.log == before.log + TransferTells(env, st, tx, rx)
    requires after.notified == before.notified + Notified(rx)
    ensures Transferred(env, st, tx, before, after, rx)
  {
    hide Le, Num, Pow2, NumberOf, TransferTells, Notified;
  }
}
