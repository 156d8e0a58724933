/** When a PDO sends and takes frames, and over whole runs how often (src/co_pdo.c, src/co_sync.c,
    CiA 301 sections 7.2.2 and 7.2.5). Transmission types and identifiers are written out. */
module PdoTraffic {
  import opened Bytes
  import opened Bits
  import opened Dictionary
  import opened PdoFrame
  import opened PdoConfig
  import opened PdoSync
  import Nmt

  // ----- sending

  /** The inhibit time holds a message back: only of an event-driven PDO, for so many units of
      100 us after the last one. */
  predicate TooSoon(p: Pdo, now: nat) {
    p.transmission in {0xFE, 0xFF} && p.inhibit > 0 && now < p.timestamp + 100 * p.inhibit
  }

  /** One message is sent, with the identifier of the PDO, as many bytes as its mapping has, and
      every mapped number as it is now; the PDO is no longer queued, and otherwise as it was. */
  ghost predicate SentNow(env: Env, st: Store, p: Pdo, now: nat, sent: seq<Msg>, q: Pdo) {
    && |sent| == 1 && sent[0].id == p.cobid % 0x4000_0000
    && sent[0].data == BytesOf(q.frame)[..Min(8, (p.bitlength + 7) / 8)]
    && (Bitlength(Used(p)) <= 64 ==> Shows(env, st, Used(p), q.frame))
    && q == p.(frame := q.frame, timestamp := now, queued := false, syncCounter := q.syncCounter,
               syncWait := q.syncWait)
  }

  lemma TransmitMeans(env: Env, st: Store, p: Pdo, now: nat)
    ensures var (sent, q) := Transmit(env, st, p, now);
            if TooSoon(p, now) then sent == [] && q == p
            else SentNow(env, st, p, now, sent, q) && q.syncCounter == p.syncCounter && q.syncWait == p.syncWait
  {
    hide Packed, Fields, Shows, Bitlength, BytesOf;
    if Bitlength(Used(p)) <= 64 {
      SampledShows(env, st, Used(p), p.frame);
    }
  }

  /** A transmit PDO at a SYNC: a disabled one does nothing; a queued one goes out, whatever its
      type, unless inhibited; one for requests after SYNC (FCh) is sampled; a cyclic one follows
      its schedule; any other does nothing. */
  lemma SyncMeans(env: Env, st: Store, p: Pdo, now: nat, overflow: Byte, counter: Byte)
    ensures var (sent, q) := SyncTx(env, st, p, now, overflow, counter);
            if p.cobid >= 0x8000_0000 then sent == [] && q == p
            else if p.queued then
              if TooSoon(p, now) then sent == [] && q == p
              else SentNow(env, st, p, now, sent, q) && q.syncCounter == p.syncCounter && q.syncWait == p.syncWait
            else if 1 <= p.transmission <= 240 then
              if p.syncWait && overflow != 0 && (counter != p.syncStart || !(1 <= counter <= 240)) then
                sent == [] && q == p
              else if (p.syncCounter + 1) % 256 == p.transmission then
                SentNow(env, st, p, now, sent, q) && q.syncCounter == 0 && !q.syncWait
              else sent == [] && q == p.(syncWait := false, syncCounter := (p.syncCounter + 1) % 256)
            else if p.transmission == 0xFC then
              sent == [] && q == p.(frame := q.frame) && (Bitlength(Used(p)) <= 64 ==> Shows(env, st, Used(p), q.frame))
            else sent == [] && q == p
  {
    hide Shows, SentNow, Transmit, Sampled, Bitlength;
    if p.queued {
      TransmitMeans(env, st, p, now);
    } else if IsCyclic(p.transmission) {
      CyclicSends(env, st, p, now);
    } else {
      SampleMeans(env, st, p);
    }
  }

  lemma CyclicSends(env: Env, st: Store, p: Pdo, now: nat)
    requires 1 <= p.transmission <= 240
    ensures var m := p.(syncWait := false, syncCounter := (p.syncCounter + 1) % 256);
            var (sent, r) := Transmit(env, st, m, now);
            SentNow(env, st, p, now, sent, r.(syncCounter := 0)) && !r.syncWait
  {
    hide Shows, Transmit, Bitlength, BytesOf;
    TransmitMeans(env, st, p.(syncWait := false, syncCounter := (p.syncCounter + 1) % 256), now);
  }

  lemma SampleMeans(env: Env, st: Store, p: Pdo)
    ensures var q := Sampled(env, st, p);
            q == p.(frame := q.frame) && (Bitlength(Used(p)) <= 64 ==> Shows(env, st, Used(p), q.frame))
  {
    hide Packed, Fields, Shows, Bitlength;
    if Bitlength(Used(p)) <= 64 {
      SampledShows(env, st, Used(p), p.frame);
    }
  }

  /** A remote request: event-driven PDOs and those for requests at any time (FDh) send the values
      of now, cyclic ones, acyclic ones and those for requests after SYNC (FCh) what their frame
      holds; others, and PDOs of another COB-ID, do nothing. */
  lemma RequestMeans(env: Env, st: Store, p: Pdo, id: U32, now: nat)
    ensures var (sent, q) := Request(env, st, p, id, now);
            if p.cobid != id then sent == [] && q == p
            else if p.transmission in {0xFD, 0xFE, 0xFF} then
              if TooSoon(p, now) then sent == [] && q == p else SentNow(env, st, p, now, sent, q)
            else if p.transmission <= 240 || p.transmission == 0xFC then
              && sent == [Msg(id, BytesOf(p.frame)[..Min(8, (p.bitlength + 7) / 8)])]
              && q == p.(timestamp := now, queued := false)
            else sent == [] && q == p
  {
    hide SentNow, Transmit, BytesOf;
    TransmitMeans(env, st, p, now);
  }

  // ----- the inhibit time over a run

  /** What makes a transmit PDO send. */
  datatype Stimulus = AtSync(st: Store, now: nat, overflow: Byte, counter: Byte) | AtRequest(st: Store, now: nat)

  function Served(env: Env, p: Pdo, s: Stimulus): (seq<Msg>, Pdo) {
    match s
    case AtSync(st, now, overflow, counter) => SyncTx(env, st, p, now, overflow, counter)
    case AtRequest(st, now) => Request(env, st, p, p.cobid, now)
  }

  /** The times of the messages of a run, and the PDO after it. */
  function Times(env: Env, p: Pdo, ss: seq<Stimulus>): (seq<nat>, Pdo)
    decreases |ss|
  {
    if ss == [] then ([], p)
    else
      var n := |ss| - 1;
      var (times, q) := Times(env, p, ss[..n]);
      var (sent, r) := Served(env, q, ss[n]);
      (times + seq(|sent|, _ => ss[n].now), r)
  }

  /** An event-driven PDO with this inhibit time. */
  predicate EventDriven(p: Pdo, inhibit: nat) {
    IsEvent(p.transmission) && p.inhibit == inhibit
  }

  lemma ServedInTime(env: Env, p: Pdo, s: Stimulus, inhibit: nat)
    requires EventDriven(p, inhibit) && inhibit > 0
    ensures var (sent, q) := Served(env, p, s);
            && EventDriven(q, inhibit) && |sent| <= 1
            && (sent == [] ==> q.timestamp == p.timestamp)
            && (sent != [] ==> s.now >= p.timestamp + 100 * inhibit && q.timestamp == s.now)
  {
    hide Packed, Fields, Sent;
  }

  /** Over any run of SYNCs and remote requests, two messages of an event-driven PDO are never
      closer than its inhibit time. */
  lemma {:induction false} InhibitHolds(env: Env, p: Pdo, ss: seq<Stimulus>, inhibit: nat)
    requires EventDriven(p, inhibit) && inhibit > 0
    ensures var (times, q) := Times(env, p, ss);
            && EventDriven(q, inhibit)
            && (forall i, j | 0 <= i < j < |times| :: times[j] >= times[i] + 100 * inhibit)
            && (forall i | 0 <= i < |times| :: times[i] <= q.timestamp)
    decreases |ss|
  {
    hide Served, EventDriven;
    if ss != [] {
      var n := |ss| - 1;
      InhibitHolds(env, p, ss[..n], inhibit);
      ServedInTime(env, Times(env, p, ss[..n]).1, ss[n], inhibit);
    }
  }

  // ----- taking frames

  /** A receive PDO at a data frame. A frame of another COB-ID is not its own; one with fewer bytes
      than the mapping is reported and dropped; one for a synchronous PDO after the end of the SYNC
      window is dropped. Any other goes into the frame buffer, over the bytes there; event-driven
      PDOs deliver it at once, the others keep it for the next SYNC. */
  lemma ReceiveMeans(env: Env, st: Store, p: Pdo, id: U32, msg: Payload, now: nat, w: Window)
    ensures var (short, st', q) := Receive(env, st, p, id, msg, now, w);
            if p.cobid != id then !short && st' == st && q == p
            else if p.bitlength > 8 * |msg| then short && st' == st && q == p
            else if p.transmission <= 240 && w.length > 0 && now >= w.since + w.length then
              !short && st' == st && q == p
            else
              && !short && BytesOf(q.frame) == msg + BytesOf(p.frame)[|msg|..]
              && (p.eventTimer > 0 ==> q.monitoring && !q.timedOut)
              && q == p.(frame := q.frame, timestamp := now, queued := q.queued,
                         monitoring := p.monitoring || p.eventTimer > 0, timedOut := p.timedOut && p.eventTimer == 0)
              && if p.transmission >= 0xFE then
                   q.queued == p.queued && st' == Delivered(env, st, Used(p), Contents(q.frame, Used(p)))
                 else q.queued && st' == st
  {
    hide BytesOf, BitsOf, Delivered, Contents;
    BytesOfBitsOf(Patch(BytesOf(p.frame), 0, msg));
    assert Patch(BytesOf(p.frame), 0, msg) == msg + BytesOf(p.frame)[|msg|..];
  }

  /** What is kept is delivered at the next SYNC, once, and nothing else is. */
  lemma SyncDelivers(env: Env, st: Store, p: Pdo)
    ensures var (st', q) := SyncRx(env, st, p);
            && q == p.(queued := false)
            && st' == if p.queued then Delivered(env, st, Used(p), Contents(p.frame, Used(p))) else st
  {
  }

  // ----- the SYNC producer

  /** A producer in a run: SYNCs sent, with their times. */
  function Ticked(p: Producer, ticks: seq<(Nmt.State, nat)>): (seq<(nat, Msg)>, Producer)
    decreases |ticks|
  {
    if ticks == [] then ([], p)
    else
      var n := |ticks| - 1;
      var (sent, q) := Ticked(p, ticks[..n]);
      var (msg, r) := Tick(q, ticks[n].0, ticks[n].1);
      (sent + match msg case None => [] case Some(m) => [(ticks[n].1, m)], r)
  }

  /** A SYNC is sent at a look at the timer exactly if the node is pre-operational or operational,
      bit 30 of object 1005h is set, and a period of object 1006h other than zero is over. */
  lemma TickIff(p: Producer, state: Nmt.State, now: nat)
    ensures var (msg, q) := Tick(p, state, now);
            && (msg.Some? <==> && (state == Nmt.Preop || state == Nmt.Op) && (p.cobid / 0x4000_0000) % 2 == 1
                               && p.period > 0 && now >= p.timestamp + p.period)
            && (msg.None? ==> q == p)
            && (msg.Some? ==>
                  && msg.value.id == p.cobid % 0x4000_0000
                  && msg.value.data == (if p.overflow == 0 then [] else [p.counter])
                  && q == p.(timestamp := now, counter := q.counter)
                  && q.counter == if p.overflow == 0 then p.counter else NextCounter(p.counter, p.overflow))
  {
  }

  /** SYNCs no closer than the period, the k-th with the k-th counter, or empty without an overflow
      value; and the producer after them. */
  predicate Regular(p: Producer, sent: seq<(nat, Msg)>, q: Producer) {
    && q == p.(timestamp := q.timestamp, counter := q.counter)
    && q.counter == (if p.overflow == 0 then p.counter else Emitted(p.counter, p.overflow, |sent|))
    && (forall i, j | 0 <= i < j < |sent| :: sent[j].0 >= sent[i].0 + p.period)
    && (forall i | 0 <= i < |sent| :: sent[i].0 <= q.timestamp)
    && (forall k | 0 <= k < |sent| ::
          && sent[k].1.id == p.cobid % 0x4000_0000
          && sent[k].1.data == if p.overflow == 0 then [] else [Emitted(p.counter, p.overflow, k)])
  }

  lemma RegularStep(p: Producer, sent: seq<(nat, Msg)>, q: Producer, state: Nmt.State, now: nat)
    requires Regular(p, sent, q)
    ensures var (msg, r) := Tick(q, state, now);
            Regular(p, sent + match msg case None => [] case Some(m) => [(now, m)], r)
  {
    hide Tick, Emitted;
    TickIff(q, state, now);
    EmittedNext(p.counter, p.overflow, |sent| + 1);
    if Tick(q, state, now).0.None? {
      assert sent + [] == sent;
    }
  }

  /** Over any run, whatever the state of the node and the times. */
  lemma {:induction false} SyncsAreRegular(p: Producer, ticks: seq<(Nmt.State, nat)>)
    ensures var (sent, q) := Ticked(p, ticks); Regular(p, sent, q)
    decreases |ticks|
  {
    hide Tick, Regular;
    if ticks == [] {
      NoneYet(p);
    } else {
      var n := |ticks| - 1;
      SyncsAreRegular(p, ticks[..n]);
      var (sent, q) := Ticked(p, ticks[..n]);
      RegularStep(p, sent, q, ticks[n].0, ticks[n].1);
    }
  }

  lemma NoneYet(p: Producer)
    ensures Regular(p, [], p)
  {
    EmittedNext(p.counter, p.overflow, 0);
  }
}
