/** The PDO tables of a node at a SYNC and at a frame: which PDOs are concerned, and in which order
    (src/co_pdo.c). */
module PdoBus {
  import opened Bytes
  import opened Dictionary
  import opened PdoFrame
  import opened PdoConfig
  import opened PdoSync
  import opened PdoEngine
  import Nmt

  // ----- at a SYNC

  /** The messages of a table, from the first PDO on, all of the values in one store. */
  function Outgoing(env: Env, st: Store, ps: seq<Pdo>, now: nat, overflow: Byte, counter: Byte): seq<Msg> {
    if ps == [] then []
    else SyncTx(env, st, ps[0], now, overflow, counter).0 + Outgoing(env, st, ps[1..], now, overflow, counter)
  }

  /** The store after the queued frames have been delivered, from the first PDO on. */
  function Incoming(env: Env, st: Store, ps: seq<Pdo>): Store
    decreases |ps|
  {
    if ps == [] then st else Incoming(env, SyncRx(env, st, ps[0]).0, ps[1..])
  }

  lemma {:induction false} OutgoingSnoc(env: Env, st: Store, ps: seq<Pdo>, now: nat, overflow: Byte, counter: Byte)
    requires ps != []
    ensures var n := |ps| - 1;
            Outgoing(env, st, ps, now, overflow, counter)
            == Outgoing(env, st, ps[..n], now, overflow, counter) + SyncTx(env, st, ps[n], now, overflow, counter).0
  {
    hide SyncTx;
    var n := |ps| - 1;
    if n > 0 {
      assert ps[1..][..n - 1] == ps[..n][1..];
      OutgoingSnoc(env, st, ps[1..], now, overflow, counter);
    } else {
      assert ps[1..] == [];
    }
  }

  lemma {:induction false} IncomingSnoc(env: Env, st: Store, ps: seq<Pdo>)
    requires ps != []
    ensures var n := |ps| - 1;
            Incoming(env, st, ps) == SyncRx(env, Incoming(env, st, ps[..n]), ps[n]).0
    decreases |ps|
  {
    hide SyncRx;
    var n := |ps| - 1;
    if n > 0 {
      assert ps[1..][..n - 1] == ps[..n][1..];
      IncomingSnoc(env, SyncRx(env, st, ps[0]).0, ps[1..]);
    } else {
      assert ps[1..] == [];
    }
  }

  lemma {:induction false} AtSyncEach(env: Env, st: Store, ps: seq<Pdo>, now: nat, overflow: Byte, counter: Byte)
    ensures var (sent, qs) := AtSync(env, st, ps, now, overflow, counter);
            && sent == Outgoing(env, st, ps, now, overflow, counter) && |qs| == |ps|
            && forall i | 0 <= i < |ps| :: qs[i] == SyncTx(env, st, ps[i], now, overflow, counter).1
    decreases |ps|
  {
    hide SyncTx, Outgoing;
    if ps == [] {
      NothingOut(env, st, now, overflow, counter);
    } else {
      AtSyncEach(env, st, ps[..|ps| - 1], now, overflow, counter);
      OutgoingSnoc(env, st, ps, now, overflow, counter);
    }
  }

  lemma NothingOut(env: Env, st: Store, now: nat, overflow: Byte, counter: Byte)
    ensures Outgoing(env, st, [], now, overflow, counter) == []
  {
  }

  lemma {:induction false} FlushedEach(env: Env, st: Store, ps: seq<Pdo>)
    ensures Flushed(env, st, ps).0 == Incoming(env, st, ps)
    decreases |ps|
  {
    hide SyncRx, Incoming;
    if ps == [] {
      assert Incoming(env, st, []) == st by {
        NothingIn(env, st);
      }
    } else {
      FlushedEach(env, st, ps[..|ps| - 1]);
      IncomingSnoc(env, st, ps);
    }
  }

  lemma NothingIn(env: Env, st: Store)
    ensures Incoming(env, st, []) == st
  {
  }

  /** An operational node at a SYNC: every transmit PDO does what it does alone, all with the values
      of before the SYNC and their messages in the order of the table; then every queued frame is
      delivered, in the order of the table. In any other state nothing happens. */
  lemma SyncedMeans(env: Env, state: Nmt.State, b: Bus, now: nat, overflow: Byte, counter: Byte)
    ensures var c := Synced(env, state, b, now, overflow, counter);
            if state != Nmt.Op then c == b
            else
              && c.sent == b.sent + Outgoing(env, b.st, b.txs, now, overflow, counter)
              && c.st == Incoming(env, b.st, b.rxs) && c.emergencies == b.emergencies
              && |c.txs| == |b.txs| && |c.rxs| == |b.rxs|
              && (forall i | 0 <= i < |b.txs| :: c.txs[i] == SyncTx(env, b.st, b.txs[i], now, overflow, counter).1)
              && (forall i | 0 <= i < |b.rxs| :: c.rxs[i] == b.rxs[i].(queued := false))
  {
    hide SyncTx, AtSync, Flushed, Outgoing, Incoming;
    AtSyncEach(env, b.st, b.txs, now, overflow, counter);
    FlushedEach(env, b.st, b.rxs);
    DeliveredOnce(env, b.st, b.rxs, b.st);
  }

  // ----- at a frame

  /** The answers of a table to a remote request, from the first PDO on. */
  function Answers(env: Env, st: Store, ps: seq<Pdo>, id: U32, now: nat): seq<Msg> {
    if ps == [] then [] else Request(env, st, ps[0], id, now).0 + Answers(env, st, ps[1..], id, now)
  }

  /** The store after each PDO of a table has had a frame, from the first one on. */
  function Taken(env: Env, st: Store, ps: seq<Pdo>, id: U32, msg: Payload, now: nat, w: Window): Store
    decreases |ps|
  {
    if ps == [] then st
    else Taken(env, Receive(env, st, ps[0], id, msg, now, w).1, ps[1..], id, msg, now, w)
  }

  /** The PDOs of a table that find their frame too short. */
  function TooShort(ps: seq<Pdo>, id: U32, msg: Payload): nat {
    if ps == [] then 0
    else (if ps[0].cobid == id && ps[0].bitlength > 8 * |msg| then 1 else 0) + TooShort(ps[1..], id, msg)
  }

  lemma {:induction false} AnswersSnoc(env: Env, st: Store, ps: seq<Pdo>, id: U32, now: nat)
    requires ps != []
    ensures var n := |ps| - 1;
            Answers(env, st, ps, id, now) == Answers(env, st, ps[..n], id, now) + Request(env, st, ps[n], id, now).0
  {
    hide Request;
    var n := |ps| - 1;
    if n > 0 {
      assert ps[1..][..n - 1] == ps[..n][1..];
      AnswersSnoc(env, st, ps[1..], id, now);
    } else {
      assert ps[1..] == [];
    }
  }

  lemma {:induction false} TakenSnoc(env: Env, st: Store, ps: seq<Pdo>, id: U32, msg: Payload, now: nat, w: Window)
    requires ps != []
    ensures var n := |ps| - 1;
            Taken(env, st, ps, id, msg, now, w)
            == Receive(env, Taken(env, st, ps[..n], id, msg, now, w), ps[n], id, msg, now, w).1
    decreases |ps|
  {
    hide Receive;
    var n := |ps| - 1;
    if n > 0 {
      assert ps[1..][..n - 1] == ps[..n][1..];
      TakenSnoc(env, Receive(env, st, ps[0], id, msg, now, w).1, ps[1..], id, msg, now, w);
    } else {
      assert ps[1..] == [];
    }
  }

  lemma {:induction false} TooShortSnoc(ps: seq<Pdo>, id: U32, msg: Payload)
    requires ps != []
    ensures var n := |ps| - 1;
            TooShort(ps, id, msg)
            == TooShort(ps[..n], id, msg) + if ps[n].cobid == id && ps[n].bitlength > 8 * |msg| then 1 else 0
  {
    var n := |ps| - 1;
    if n > 0 {
      assert ps[1..][..n - 1] == ps[..n][1..];
      TooShortSnoc(ps[1..], id, msg);
    } else {
      assert ps[1..] == [];
    }
  }

  lemma {:induction false} RequestedEach(env: Env, st: Store, ps: seq<Pdo>, id: U32, now: nat)
    ensures var (sent, qs) := Requested(env, st, ps, id, now);
            && sent == Answers(env, st, ps, id, now) && |qs| == |ps|
            && forall i | 0 <= i < |ps| :: qs[i] == Request(env, st, ps[i], id, now).1
    decreases |ps|
  {
    hide Request, Answers;
    if ps == [] {
      NoAnswer(env, st, id, now);
    } else {
      RequestedEach(env, st, ps[..|ps| - 1], id, now);
      AnswersSnoc(env, st, ps, id, now);
    }
  }

  lemma NoAnswer(env: Env, st: Store, id: U32, now: nat)
    ensures Answers(env, st, [], id, now) == []
  {
  }

  lemma {:induction false} ArrivedEach(env: Env, st: Store, ps: seq<Pdo>, id: U32, msg: Payload, now: nat, w: Window)
    ensures var (short, end, qs) := Arrived(env, st, ps, id, msg, now, w);
            && short == TooShort(ps, id, msg) && end == Taken(env, st, ps, id, msg, now, w) && |qs| == |ps|
            && forall i | 0 <= i < |ps| :: qs[i] == Receive(env, st, ps[i], id, msg, now, w).2
    decreases |ps|
  {
    hide Receive, Taken, TooShort;
    if ps == [] {
      NobodyTakes(env, st, id, msg, now, w);
    } else {
      var n := |ps| - 1;
      ArrivedEach(env, st, ps[..n], id, msg, now, w);
      TakenSnoc(env, st, ps, id, msg, now, w);
      TooShortSnoc(ps, id, msg);
      SameInAnyStore(env, st, Taken(env, st, ps[..n], id, msg, now, w), ps[n], id, msg, now, w);
    }
  }

  lemma NobodyTakes(env: Env, st: Store, id: U32, msg: Payload, now: nat, w: Window)
    ensures Taken(env, st, [], id, msg, now, w) == st && TooShort([], id, msg) == 0
  {
  }

  /** What a PDO itself makes of a frame does not depend on the dictionary. */
  lemma SameInAnyStore(env: Env, st: Store, st': Store, p: Pdo, id: U32, msg: Payload, now: nat, w: Window)
    ensures Receive(env, st, p, id, msg, now, w).2 == Receive(env, st', p, id, msg, now, w).2
    ensures Receive(env, st', p, id, msg, now, w).0 <==> p.cobid == id && p.bitlength > 8 * |msg|
  {
    hide Buffered, Delivered, Contents;
  }

  /** In the operational state a remote request - bit 30 of the identifier - is put to every transmit
      PDO with the other 29 bits and the frame format, and any other frame to every receive PDO, in
      the order of the tables, with one emergency for each that finds it too short. PDOs of another
      COB-ID do not react (`PdoTraffic.RequestMeans`, `ReceiveMeans`). */
  lemma FramedMeans(env: Env, state: Nmt.State, b: Bus, id: U32, msg: Payload, now: nat, w: Window)
    ensures var c := Framed(env, state, b, id, msg, now, w);
            if state != Nmt.Op then c == b
            else if id / 0x4000_0000 % 2 == 1 then
              var asked := id % 0x4000_0000;
              && c == b.(sent := b.sent + Answers(env, b.st, b.txs, asked, now), txs := c.txs) && |c.txs| == |b.txs|
              && forall i | 0 <= i < |b.txs| :: c.txs[i] == Request(env, b.st, b.txs[i], asked, now).1
            else
              && c == b.(emergencies := b.emergencies + TooShort(b.rxs, id, msg),
                         st := Taken(env, b.st, b.rxs, id, msg, now, w), rxs := c.rxs) && |c.rxs| == |b.rxs|
              && forall i | 0 <= i < |b.rxs| :: c.rxs[i] == Receive(env, b.st, b.rxs[i], id, msg, now, w).2
  {
    hide Requested, Arrived, Receive, Request, Answers, Taken, TooShort;
    RequestedEach(env, b.st, b.txs, id % 0x4000_0000, now);
    ArrivedEach(env, b.st, b.rxs, id, msg, now, w);
  }
}
