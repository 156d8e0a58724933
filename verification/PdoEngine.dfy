/** All the PDOs of a node at a SYNC or a frame from the bus, and the SYNC producer
    (src/co_pdo.c, src/co_sync.c). */
module PdoEngine {
  import opened Bytes
  import opened Dictionary
  import opened PdoFrame
  import opened PdoConfig
  import opened PdoSync
  import opened PdoNode
  import Nmt

  // ----- what a whole node does, in terms of its PDOs

  function AtSync(env: Env, st: Store, ps: seq<Pdo>, now: nat, overflow: Byte, counter: Byte): (seq<Msg>, seq<Pdo>) {
    if ps == [] then ([], [])
    else
      var n := |ps| - 1;
      var (sent, qs) := AtSync(env, st, ps[..n], now, overflow, counter);
      var (out, q) := SyncTx(env, st, ps[n], now, overflow, counter);
      (sent + out, qs + [q])
  }

  function Flushed(env: Env, st: Store, ps: seq<Pdo>): (Store, seq<Pdo>) {
    if ps == [] then (st, [])
    else
      var n := |ps| - 1;
      var (mid, qs) := Flushed(env, st, ps[..n]);
      var (end, q) := SyncRx(env, mid, ps[n]);
      (end, qs + [q])
  }

  function Requested(env: Env, st: Store, ps: seq<Pdo>, id: U32, now: nat): (seq<Msg>, seq<Pdo>) {
    if ps == [] then ([], [])
    else
      var n := |ps| - 1;
      var (sent, qs) := Requested(env, st, ps[..n], id, now);
      var (out, q) := Request(env, st, ps[n], id, now);
      (sent + out, qs + [q])
  }

  /** Too short frames reported, the store, and the PDOs. */
  function Arrived(env: Env, st: Store, ps: seq<Pdo>, id: U32, msg: Payload, now: nat, w: Window)
    : (nat, Store, seq<Pdo>)
  {
    if ps == [] then (0, st, [])
    else
      var n := |ps| - 1;
      var (short, mid, qs) := Arrived(env, st, ps[..n], id, msg, now, w);
      var (s, end, q) := Receive(env, mid, ps[n], id, msg, now, w);
      (short + if s then 1 else 0, end, qs + [q])
  }

  /** Everything a node's PDOs act on. */
  datatype Bus = Bus(sent: seq<Msg>, emergencies: nat, st: Store, txs: seq<Pdo>, rxs: seq<Pdo>)

  /** Transmit PDOs go first, in order, then queued receive PDOs are delivered in order. */
  function Synced(env: Env, state: Nmt.State, b: Bus, now: nat, overflow: Byte, counter: Byte): Bus {
    if state != Nmt.Op then b
    else
      var (out, txs) := AtSync(env, b.st, b.txs, now, overflow, counter);
      var (st, rxs) := Flushed(env, b.st, b.rxs);
      Bus(b.sent + out, b.emergencies, st, txs, rxs)
  }

  predicate IsRemoteRequest(id: U32) {
    id / 0x4000_0000 % 2 == 1
  }

  /** A remote request reaches the transmit PDOs, data the receive PDOs. */
  function Framed(env: Env, state: Nmt.State, b: Bus, id: U32, msg: Payload, now: nat, w: Window): Bus
  {
    if state != Nmt.Op then b
    else if IsRemoteRequest(id) then
      var (out, txs) := Requested(env, b.st, b.txs, id % 0x4000_0000, now);
      b.(sent := b.sent + out, txs := txs)
    else
      var (short, st, rxs) := Arrived(env, b.st, b.rxs, id, msg, now, w);
      b.(emergencies := b.emergencies + short, st := st, rxs := rxs)
  }

  /** After a SYNC nothing is queued for delivery, so each received frame is delivered once:
      another SYNC changes neither the store nor any receive PDO. */
  lemma {:induction false} DeliveredOnce(env: Env, st: Store, ps: seq<Pdo>, st': Store)
    ensures var qs := Flushed(env, st, ps).1;
            |qs| == |ps| && (forall i | 0 <= i < |qs| :: qs[i] == ps[i].(queued := false))
            && Flushed(env, st', qs) == (st', qs)
    decreases |ps|
  {
    if ps != [] {
      var n := |ps| - 1;
      DeliveredOnce(env, st, ps[..n], st');
      var qs := Flushed(env, st, ps).1;
      assert qs[..n] == Flushed(env, st, ps[..n]).1;
    }
  }

  function States(objs: seq<PdoObject>): (ps: seq<Pdo>)
    reads set o | o in objs
    ensures |ps| == |objs| && forall i | 0 <= i < |objs| :: ps[i] == objs[i].State()
  {
    seq(|objs|, i requires 0 <= i < |objs| reads set o | o in objs => objs[i].State())
  }

  predicate Distinct(objs: seq<PdoObject>) {
    forall i, j | 0 <= i < j < |objs| :: objs[i] != objs[j]
  }

  ghost predicate AllReady(od: seq<Obj>, objs: seq<PdoObject>, tx: bool)
    reads set o | o in objs
  {
    forall i | 0 <= i < |objs| :: Ready(od, objs[i].State(), tx)
  }

  // ----- the loops over one table

  lemma AtSyncNext(env: Env, st: Store, ps: seq<Pdo>, ix: nat, now: nat, overflow: Byte, counter: Byte)
    requires ix < |ps|
    ensures var (sent, qs) := AtSync(env, st, ps[..ix], now, overflow, counter);
            var (out, q) := SyncTx(env, st, ps[ix], now, overflow, counter);
            AtSync(env, st, ps[..ix + 1], now, overflow, counter) == (sent + out, qs + [q])
  {
    assert ps[..ix + 1][..ix] == ps[..ix];
  }

  lemma RequestedNext(env: Env, st: Store, ps: seq<Pdo>, ix: nat, id: U32, now: nat)
    requires ix < |ps|
    ensures var (sent, qs) := Requested(env, st, ps[..ix], id, now);
            var (out, q) := Request(env, st, ps[ix], id, now);
            Requested(env, st, ps[..ix + 1], id, now) == (sent + out, qs + [q])
  {
    assert ps[..ix + 1][..ix] == ps[..ix];
  }

  lemma FlushedNext(env: Env, st: Store, ps: seq<Pdo>, ix: nat)
    requires ix < |ps|
    ensures var (mid, qs) := Flushed(env, st, ps[..ix]);
            var (end, q) := SyncRx(env, mid, ps[ix]);
            Flushed(env, st, ps[..ix + 1]) == (end, qs + [q])
  {
    assert ps[..ix + 1][..ix] == ps[..ix];
  }

  lemma ArrivedNext(env: Env, st: Store, ps: seq<Pdo>, ix: nat, id: U32, msg: Payload, now: nat, w: Window)
    requires ix < |ps|
    ensures var (short, mid, qs) := Arrived(env, st, ps[..ix], id, msg, now, w);
            var (s, end, q) := Receive(env, mid, ps[ix], id, msg, now, w);
            Arrived(env, st, ps[..ix + 1], id, msg, now, w) == (short + if s then 1 else 0, end, qs + [q])
  {
    assert ps[..ix + 1][..ix] == ps[..ix];
  }

  lemma NothingYet(env: Env, st: Store, now: nat, overflow: Byte, counter: Byte, id: U32, msg: Payload, w: Window)
    ensures AtSync(env, st, [], now, overflow, counter) == ([], [])
    ensures Requested(env, st, [], id, now) == ([], [])
    ensures Flushed(env, st, []) == (st, [])
    ensures Arrived(env, st, [], id, msg, now, w) == (0, st, [])
  {
  }

  /** Same mapping and COB-ID, and nothing newly queued unless the PDO is enabled. */
  predicate SameShape(p: Pdo, q: Pdo) {
    q.slots == p.slots && q.count == p.count && q.cobid == p.cobid && (q.queued ==> p.queued || Enabled(p))
  }

  lemma TransmitKeepsShape(env: Env, st: Store, p: Pdo, now: nat, overflow: Byte, counter: Byte, id: U32)
    ensures SameShape(p, SyncTx(env, st, p, now, overflow, counter).1)
    ensures SameShape(p, Request(env, st, p, id, now).1)
  {
    hide Packed, Sent, Inhibited, HeldBack;
  }

  lemma ReceiveKeepsShape(env: Env, st: Store, p: Pdo, id: U32, msg: Payload, now: nat, w: Window)
    requires id < COBID_INVALID
    ensures SameShape(p, Receive(env, st, p, id, msg, now, w).2)
  {
    hide Contents, Delivered, Received, TooLate;
  }

  lemma StaysReady(od: seq<Obj>, p: Pdo, q: Pdo, tx: bool)
    requires Ready(od, p, tx) && SameShape(p, q)
    ensures Ready(od, q, tx)
  {
    hide SlotsWalkable;
  }

  /** No handler changes a mapping, and none queues a frame for a PDO that is not enabled. */
  lemma HandlersKeepReady(
    od: seq<Obj>, env: Env, st: Store, p: Pdo, now: nat, overflow: Byte, counter: Byte,
    id: U32, msg: Payload, w: Window, tx: bool)
    requires Ready(od, p, tx) && id < COBID_INVALID
    ensures Ready(od, SyncTx(env, st, p, now, overflow, counter).1, tx)
    ensures Ready(od, SyncRx(env, st, p).1, tx)
    ensures Ready(od, Request(env, st, p, id, now).1, tx)
    ensures Ready(od, Receive(env, st, p, id, msg, now, w).2, tx)
  {
    hide Ready, SyncTx, Request, Receive;
    TransmitKeepsShape(env, st, p, now, overflow, counter, id);
    ReceiveKeepsShape(env, st, p, id, msg, now, w);
    StaysReady(od, p, SyncTx(env, st, p, now, overflow, counter).1, tx);
    StaysReady(od, p, SyncRx(env, st, p).1, tx);
    StaysReady(od, p, Request(env, st, p, id, now).1, tx);
    StaysReady(od, p, Receive(env, st, p, id, msg, now, w).2, tx);
  }

  method TransmitAll(od: ObjectDictionary, objs: seq<PdoObject>, now: nat, overflow: Byte, counter: Byte)
    returns (out: seq<Msg>)
    requires Distinct(objs) && AllReady(od.env.od, objs, true)
    modifies set o | o in objs
    ensures AllReady(od.env.od, objs, true)
    ensures (out, States(objs)) == AtSync(od.env, od.St(), old(States(objs)), now, overflow, counter)
  {
    hide States, AtSync, SyncTx, Ready, SlotsWalkable;
    ghost var ps, qs := States(objs), [];
    out := [];
    NothingYet(od.env, od.St(), now, overflow, counter, 0, [], Window(0, 0));
    assert ps[..0] == [];
    for ix := 0 to |objs|
      invariant |qs| == ix && (out, qs) == AtSync(od.env, od.St(), ps[..ix], now, overflow, counter)
      invariant forall j | 0 <= j < ix :: objs[j].State() == qs[j]
      invariant forall j | ix <= j < |objs| :: objs[j].State() == ps[j]
      invariant AllReady(od.env.od, objs, true)
    {
      AtSyncNext(od.env, od.St(), ps, ix, now, overflow, counter);
      HandlersKeepReady(od.env.od, od.env, od.St(), ps[ix], now, overflow, counter, 0, [], Window(0, 0), true);
      ReadyMeans(od.env.od, ps[ix], true);
      var sent := objs[ix].OnSync(od, now, overflow, counter);
      out := out + sent;
      qs := qs + [objs[ix].State()];
    }
    assert ps[..|objs|] == ps && States(objs) == qs;
  }

  method FlushAll(od: ObjectDictionary, objs: seq<PdoObject>)
    requires od.Valid() && Distinct(objs) && AllReady(od.env.od, objs, false)
    modifies od, set o | o in objs
    ensures od.Valid() && AllReady(od.env.od, objs, false)
    ensures (od.St(), States(objs)) == Flushed(od.env, old(od.St()), old(States(objs)))
  {
    hide States, Flushed, SyncRx, Ready, SlotsWalkable, OdOk, StoreOk;
    ghost var ps, qs := States(objs), [];
    NothingYet(od.env, od.St(), 0, 0, 0, 0, [], Window(0, 0));
    assert ps[..0] == [];
    for ix := 0 to |objs|
      invariant od.Valid()
      invariant |qs| == ix && (od.St(), qs) == Flushed(od.env, old(od.St()), ps[..ix])
      invariant forall j | 0 <= j < ix :: objs[j].State() == qs[j]
      invariant forall j | ix <= j < |objs| :: objs[j].State() == ps[j]
      invariant AllReady(od.env.od, objs, false)
    {
      FlushedNext(od.env, old(od.St()), ps, ix);
      HandlersKeepReady(od.env.od, od.env, od.St(), ps[ix], 0, 0, 0, 0, [], Window(0, 0), false);
      ReadyMeans(od.env.od, ps[ix], false);
      objs[ix].Flush(od);
      qs := qs + [objs[ix].State()];
    }
    assert ps[..|objs|] == ps && States(objs) == qs;
  }

  method RequestAll(od: ObjectDictionary, objs: seq<PdoObject>, id: U32, now: nat) returns (out: seq<Msg>)
    requires id < COBID_INVALID
    requires Distinct(objs) && AllReady(od.env.od, objs, true)
    modifies set o | o in objs
    ensures AllReady(od.env.od, objs, true)
    ensures (out, States(objs)) == Requested(od.env, od.St(), old(States(objs)), id, now)
  {
    hide States, Requested, Request, Ready, SlotsWalkable;
    ghost var ps, qs := States(objs), [];
    out := [];
    NothingYet(od.env, od.St(), now, 0, 0, id, [], Window(0, 0));
    assert ps[..0] == [];
    for ix := 0 to |objs|
      invariant |qs| == ix && (out, qs) == Requested(od.env, od.St(), ps[..ix], id, now)
      invariant forall j | 0 <= j < ix :: objs[j].State() == qs[j]
      invariant forall j | ix <= j < |objs| :: objs[j].State() == ps[j]
      invariant AllReady(od.env.od, objs, true)
    {
      RequestedNext(od.env, od.St(), ps, ix, id, now);
      HandlersKeepReady(od.env.od, od.env, od.St(), ps[ix], now, 0, 0, id, [], Window(0, 0), true);
      ReadyMeans(od.env.od, ps[ix], true);
      var sent := objs[ix].OnRequest(od, id, now);
      out := out + sent;
      qs := qs + [objs[ix].State()];
    }
    assert ps[..|objs|] == ps && States(objs) == qs;
  }

  /** One round of the loop below: the other PDOs are not touched. */
  method ReceiveOne(od: ObjectDictionary, objs: seq<PdoObject>, ix: nat, id: U32, msg: Payload, now: nat, w: Window)
    returns (short: bool)
    requires id < COBID_INVALID
    requires od.Valid() && Distinct(objs) && AllReady(od.env.od, objs, false) && ix < |objs|
    modifies od, set o | o in objs
    ensures od.Valid() && AllReady(od.env.od, objs, false)
    ensures forall j | 0 <= j < |objs| && j != ix :: objs[j].State() == old(objs[j].State())
    ensures (short, od.St(), objs[ix].State()) == Receive(od.env, old(od.St()), old(objs[ix].State()), id, msg, now, w)
  {
    hide Receive, SlotsWalkable, OdOk, StoreOk;
    HandlersKeepReady(od.env.od, od.env, od.St(), objs[ix].State(), now, 0, 0, id, msg, w, false);
    short := objs[ix].OnFrame(od, id, msg, now, w);
  }

  method ReceiveAll(od: ObjectDictionary, objs: seq<PdoObject>, id: U32, msg: Payload, now: nat, w: Window)
    returns (short: nat)
    requires id < COBID_INVALID
    requires od.Valid() && Distinct(objs) && AllReady(od.env.od, objs, false)
    modifies od, set o | o in objs
    ensures od.Valid() && AllReady(od.env.od, objs, false)
    ensures (short, od.St(), States(objs)) == Arrived(od.env, old(od.St()), old(States(objs)), id, msg, now, w)
  {
    hide States, Arrived, Receive, Ready, SlotsWalkable, OdOk, StoreOk;
    ghost var ps, qs := States(objs), [];
    short := 0;
    NothingYet(od.env, od.St(), now, 0, 0, id, msg, w);
    assert ps[..0] == [];
    for ix := 0 to |objs|
      invariant od.Valid()
      invariant |qs| == ix && (short, od.St(), qs) == Arrived(od.env, old(od.St()), ps[..ix], id, msg, now, w)
      invariant forall j | 0 <= j < ix :: objs[j].State() == qs[j]
      invariant forall j | ix <= j < |objs| :: objs[j].State() == ps[j]
      invariant AllReady(od.env.od, objs, false)
    {
      ArrivedNext(od.env, old(od.St()), ps, ix, id, msg, now, w);
      var isShort := ReceiveOne(od, objs, ix, id, msg, now, w);
      short := short + if isShort then 1 else 0;
      qs := qs + [objs[ix].State()];
    }
    assert ps[..|objs|] == ps && States(objs) == qs;
  }

  function OneByte(b: Byte): Payload {
    var d: Data := [b];
    d
  }

  // ----- the node

  class PdoEngine {
    const od: ObjectDictionary
    const tx: seq<PdoObject>
    const rx: seq<PdoObject>
    var state: Nmt.State
    var syncCobid: U32
    var counter: Byte
    var overflow: Byte
    var period: U32
    var timestamp: nat
    var syncTimestamp: nat
    var syncWindow: U32
    var sent: seq<Msg>
    var emergencies: nat

    constructor (od: ObjectDictionary, tx: seq<PdoObject>, rx: seq<PdoObject>)
      ensures this.od == od && this.tx == tx && this.rx == rx
      ensures state == Nmt.Off && sent == [] && emergencies == 0
    {
      this.od, this.tx, this.rx := od, tx, rx;
      state, syncCobid, counter, overflow, period := Nmt.Off, 0, 0, 0, 0;
      timestamp, syncTimestamp, syncWindow, sent, emergencies := 0, 0, 0, [], 0;
    }

    ghost predicate Valid()
      reads od, set o | o in tx, set o | o in rx
    {
      && od.Valid()
      && Distinct(tx) && Distinct(rx) && (forall o | o in tx :: o !in rx)
      && AllReady(od.env.od, tx, true) && AllReady(od.env.od, rx, false)
    }

    ghost function View(): Bus
      reads `sent, `emergencies, od, set o | o in tx, set o | o in rx
    {
      Bus(sent, emergencies, od.St(), States(tx), States(rx))
    }

    /** co_pdo_sync. */
    method Sync(msgCounter: Byte, now: nat)
      requires Valid()
      modifies this`sent, this`syncTimestamp, od, set o | o in tx, set o | o in rx
      ensures Valid()
      ensures View() == Synced(od.env, state, old(View()), now, overflow, msgCounter)
      ensures syncTimestamp == if state == Nmt.Op then now else old(syncTimestamp)
    {
      hide AtSync, Flushed, AllReady, Distinct, States, OdOk, StoreOk;
      if state != Nmt.Op {
        return;
      }
      syncTimestamp := now;
      var out := TransmitAll(od, tx, now, overflow, msgCounter);
      sent := sent + out;
      assert States(rx) == old(States(rx)) && AllReady(od.env.od, rx, false);
      label transmitted:
      FlushAll(od, rx);
      assert States(tx) == old@transmitted(States(tx)) && AllReady(od.env.od, tx, true);
    }

    /** co_pdo_rx. The identifier comes from the driver: 29 bits and the two format flags. */
    method Rx(id: U32, msg: Payload, now: nat)
      requires Valid() && id < COBID_INVALID
      modifies this`sent, this`emergencies, od, set o | o in tx, set o | o in rx
      ensures Valid()
      ensures View() == Framed(od.env, state, old(View()), id, msg, now, Window(syncWindow, syncTimestamp))
    {
      hide Valid, Requested, Arrived, IsRemoteRequest, States;
      if state != Nmt.Op {
        return;
      }
      if IsRemoteRequest(id) {
        Answer(id % 0x4000_0000, now);
      } else {
        Accept(id, msg, now);
      }
    }

    /** The loop over the transmit table at a remote request. */
    method Answer(id: U32, now: nat)
      requires Valid() && id < COBID_INVALID
      modifies this`sent, set o | o in tx
      ensures Valid()
      ensures var b := old(View());
              var (out, txs) := Requested(od.env, b.st, b.txs, id, now);
              View() == b.(sent := b.sent + out, txs := txs)
    {
      hide Requested, AllReady, Distinct, States, OdOk, StoreOk;
      var out := RequestAll(od, tx, id, now);
      sent := sent + out;
      assert States(rx) == old(States(rx)) && AllReady(od.env.od, rx, false);
    }

    /** The loop over the receive table at a data frame. */
    method Accept(id: U32, msg: Payload, now: nat)
      requires Valid() && id < COBID_INVALID
      modifies this`emergencies, od, set o | o in rx
      ensures Valid()
      ensures var b := old(View());
              var (short, st, rxs) := Arrived(od.env, b.st, b.rxs, id, msg, now, Window(syncWindow, syncTimestamp));
              View() == b.(emergencies := b.emergencies + short, st := st, rxs := rxs)
    {
      hide Arrived, AllReady, Distinct, States, OdOk, StoreOk;
      var short := ReceiveAll(od, rx, id, msg, now, Window(syncWindow, syncTimestamp));
      emergencies := emergencies + short;
      assert States(tx) == old(States(tx)) && AllReady(od.env.od, tx, true);
    }

    /** The SYNC producer among the fields. */
    function Clock(): Producer
      reads this
    {
      Producer(syncCobid, counter, overflow, period, timestamp)
    }

    /** The SYNC message, numbered if an overflow value is set. */
    function SyncMessage(): Msg
      reads `syncCobid, `overflow, `counter
    {
      Msg(syncCobid % 0x4000_0000, if overflow != 0 then OneByte(counter) else [])
    }

    /** What a SYNC sent at `now` leads to. */
    ghost function Announced(msg: Msg, now: nat): Bus
      reads `sent, `emergencies, `state, `overflow, `counter, od, set o | o in tx, set o | o in rx
    {
      var b := View();
      Synced(od.env, state, b.(sent := b.sent + [msg]), now, overflow, if overflow != 0 then counter else 0)
    }

    /** Send a SYNC, act on it, and count. */
    method Produce(now: nat)
      requires Valid()
      modifies this`sent, this`syncTimestamp, this`counter, od, set o | o in tx, set o | o in rx
      ensures Valid()
      ensures View() == old(Announced(SyncMessage(), now))
      ensures counter == if overflow != 0 then NextCounter(old(counter), overflow) else old(counter)
    {
      hide Valid, Synced, States, OneByte;
      if overflow != 0 {
        sent := sent + [Msg(syncCobid % 0x4000_0000, OneByte(counter))];
        assert View() == old(View().(sent := sent + [SyncMessage()]));
        Sync(counter, now);
        if counter == overflow {
          counter := 1;
        } else {
          counter := (counter + 1) % 0x100;
        }
      } else {
        sent := sent + [Msg(syncCobid % 0x4000_0000, [])];
        assert View() == old(View().(sent := sent + [SyncMessage()]));
        Sync(0, now);
      }
    }

    /** co_sync_timer. */
    method SyncTimer(now: nat)
      requires Valid()
      modifies this`sent, this`syncTimestamp, this`timestamp, this`counter, od, set o | o in tx, set o | o in rx
      ensures Valid()
      ensures var (msg, clock) := Tick(old(Clock()), state, now);
              && Clock() == clock
              && View() == if msg.None? then old(View()) else old(Announced(msg.value, now))
    {
      hide Valid, Synced, States, NextCounter;
      if state != Nmt.Preop && state != Nmt.Op {
        return;
      }
      if syncCobid / 0x4000_0000 % 2 == 0 {
        return;
      }
      if period != 0 {
        if now - timestamp >= period {
          timestamp := now;
          Produce(now);
        }
      }
    }
  }
}
