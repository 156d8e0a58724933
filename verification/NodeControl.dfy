/** Boot-up, NMT commands and LSS on one node: the event loop of src/co_nmt.c coupled to the
    pending node-ID of src/co_lss.c. */
module NodeControl {
  import opened Bytes
  import opened Nmt
  import P = Persistence
  import L = Lss

  /** What a node does besides changing its own state. */
  datatype Effect =
    | ResetDictionary(store: P.StoreId, min: nat, max: nat)
    | RestartBus(bitrate: nat)
    | StartPdos
    | Send(id: nat, data: Data)
    | StateChanged(state: State)

  /** `config` is the LSS state; `pending` and `pendingBitrate` become active later; `file` is
      the LSS store, empty until written; `level` counts matched LSS criteria. */
  datatype Net = Net(
    state: State, node: Byte, bitrate: U32,
    config: bool, pending: Byte, pendingBitrate: U32, level: nat,
    file: Data, effects: seq<Effect>)

  /** Fixed for a device: its identity, and whether file functions were supplied. */
  datatype Device = Device(identity: L.Identity, hasStore: bool)

  const UNCONFIGURED: Byte := 0xFF

  const BITRATES: seq<U32> := [1000000, 800000, 500000, 250000, 125000, 0, 50000, 20000, 10000]

  // ----- persistent settings

  function PersistentNode(d: Device, n: Net): Byte {
    if d.hasStore && |n.file| >= 1 && n.file[0] != 0 then n.file[0] else n.node
  }

  function PersistentBitrate(d: Device, n: Net): U32 {
    if d.hasStore && |n.file| >= 5 && n.file[0] != 0 then
      LeBound(n.file[1..5]);
      Pow256Values();
      Le(n.file[1..5])
    else n.bitrate
  }

  // ----- event loop

  function Do(n: Net, e: Effect): Net {
    n.(effects := n.effects + [e])
  }

  /** The action of a transition: the event it raises and the node after it. */
  function Act(d: Device, a: Action, n: Net): (Event, Net) {
    match a
    case NoAction => (NoEvent, n)
    case DoPoweron =>
      var bitrate := PersistentBitrate(d, n);
      (InitDone, n.(config := false, level := 0, pendingBitrate := bitrate, bitrate := bitrate))
    case DoResetApp =>
      var m := Do(Do(n, ResetDictionary(P.Mfg, 0x2000, 0x5FFF)), ResetDictionary(P.App, 0x6000, 0x9FFF));
      (InitDone, m.(pending := PersistentNode(d, n)))
    case DoResetComm =>
      var m := Do(Do(n, ResetDictionary(P.Comm, 0x1000, 0x1FFF)), RestartBus(n.bitrate));
      if n.pending != UNCONFIGURED then (InitDone, m.(node := n.pending)) else (NoEvent, m)
    case DoBootup => (NoEvent, Do(n, Send(0x700 + n.node, [0])))
    case DoStart => (NoEvent, Do(n, StartPdos))
  }

  /** One round of the loop. */
  function Round(d: Device, n: Net, e: Event): (Event, Net) {
    var cell := Diagram(n.state, e);
    var (next, m) := Act(d, cell.action, n.(state := cell.next));
    (next, if m.state != n.state then Do(m, StateChanged(m.state)) else m)
  }

  /** Rounds left before the loop stops. */
  function RoundsLeft(s: State, e: Event): (r: nat)
    ensures r <= 4
  {
    if e == InitDone then (if s == InitPwron then 3 else if s == InitApp then 2 else if s == InitComm then 1 else 0)
    else if e == Reset then (if s == Off then 4 else 3)
    else if e == ResetComm then 2
    else 0
  }

  /** The whole loop. It always stops: each round that raises an event has fewer to come. */
  function HandleEvent(d: Device, n: Net, e: Event): Net
    decreases RoundsLeft(n.state, e)
  {
    var (next, m) := Round(d, n, e);
    if next == NoEvent then m else HandleEvent(d, m, next)
  }

  lemma RoundDecreases(d: Device, n: Net, e: Event)
    ensures var (next, m) := Round(d, n, e);
            next != NoEvent ==> RoundsLeft(m.state, next) < RoundsLeft(n.state, e)
  {
  }

  /** Rounds actually made. */
  function Rounds(d: Device, n: Net, e: Event): nat
    decreases RoundsLeft(n.state, e)
  {
    var (next, m) := Round(d, n, e);
    1 + if next == NoEvent then 0 else Rounds(d, m, next)
  }

  /** The loop makes at most four rounds. */
  lemma {:induction false} AtMostFourRounds(d: Device, n: Net, e: Event)
    ensures Rounds(d, n, e) <= if RoundsLeft(n.state, e) > 0 then RoundsLeft(n.state, e) else 1
    ensures Rounds(d, n, e) <= 4
    decreases RoundsLeft(n.state, e)
  {
    var (next, m) := Round(d, n, e);
    if next != NoEvent {
      AtMostFourRounds(d, m, next);
    }
  }

  /** Boot-up messages among the effects. */
  function Bootups(es: seq<Effect>): nat
    decreases |es|
  {
    if es == [] then 0
    else Bootups(es[..|es| - 1]) + if es[|es| - 1].Send? && es[|es| - 1].data == [0] then 1 else 0
  }

  lemma BootupsOfDo(n: Net, e: Effect)
    ensures Bootups(Do(n, e).effects) == Bootups(n.effects) + if e.Send? && e.data == [0] then 1 else 0
  {
    assert Do(n, e).effects[..|n.effects|] == n.effects;
  }

  /** From the end of a communication reset: pre-operational with one boot-up message under the
      new node-ID, or parked without one. */
  ghost predicate Settled(n: Net, end: Net, pending: Byte) {
    if pending != UNCONFIGURED then
      && end.state == Preop && end.node == pending && end.pending == pending
      && Bootups(end.effects) == Bootups(n.effects) + 1
    else
      && end.state == InitComm && end.node == n.node && end.pending == pending
      && Bootups(end.effects) == Bootups(n.effects)
  }

  lemma ActBootups(d: Device, a: Action, n: Net)
    ensures Bootups(Act(d, a, n).1.effects) == Bootups(n.effects) + if a == DoBootup then 1 else 0
  {
    hide Bootups;
    match a
    case DoResetApp =>
      BootupsOfDo(n, ResetDictionary(P.Mfg, 0x2000, 0x5FFF));
      BootupsOfDo(Do(n, ResetDictionary(P.Mfg, 0x2000, 0x5FFF)), ResetDictionary(P.App, 0x6000, 0x9FFF));
    case DoResetComm =>
      BootupsOfDo(n, ResetDictionary(P.Comm, 0x1000, 0x1FFF));
      BootupsOfDo(Do(n, ResetDictionary(P.Comm, 0x1000, 0x1FFF)), RestartBus(n.bitrate));
    case DoBootup => BootupsOfDo(n, Send(0x700 + n.node, [0]));
    case DoStart => BootupsOfDo(n, StartPdos);
    case _ =>
  }

  lemma RoundBootups(d: Device, n: Net, e: Event)
    ensures Bootups(Round(d, n, e).1.effects)
         == Bootups(n.effects) + if Diagram(n.state, e).action == DoBootup then 1 else 0
  {
    hide Bootups, Diagram, Act;
    var cell := Diagram(n.state, e);
    ActBootups(d, cell.action, n.(state := cell.next));
    var acted := Act(d, cell.action, n.(state := cell.next)).1;
    BootupsOfDo(acted, StateChanged(acted.state));
  }

  lemma InitCommSettles(d: Device, n: Net)
    requires n.state == InitComm
    ensures var end := HandleEvent(d, n, InitDone);
            && end.state == Preop && end.node == n.node && end.pending == n.pending && end.file == n.file
            && end.config == n.config
            && Bootups(end.effects) == Bootups(n.effects) + 1
  {
    RoundBootups(d, n, InitDone);
  }

  lemma ResetCommSettles(d: Device, n: Net, e: Event)
    requires (Running(n.state) && e == ResetComm) || (n.state == InitApp && e == InitDone)
    ensures Settled(n, HandleEvent(d, n, e), n.pending)
  {
    RoundBootups(d, n, e);
    var (next, m) := Round(d, n, e);
    if next != NoEvent {
      InitCommSettles(d, m);
    }
  }

  lemma Unfold(d: Device, n: Net, e: Event)
    ensures var (next, m) := Round(d, n, e);
            HandleEvent(d, n, e) == if next == NoEvent then m else HandleEvent(d, m, next)
  {
  }

  /** The application reset takes the persistent node-ID as the pending one. */
  lemma ToResetApp(d: Device, n: Net, e: Event)
    requires (Running(n.state) && e == Reset) || (n.state == InitPwron && e == InitDone)
    ensures var (next, m) := Round(d, n, e);
            && next == InitDone && m.state == InitApp && m.node == n.node && m.pending == PersistentNode(d, n)
            && Bootups(m.effects) == Bootups(n.effects)
  {
    hide Bootups, PersistentNode;
    RoundBootups(d, n, e);
    SameSettings(d, n, n.(state := InitApp));
  }

  lemma ToPowerOn(d: Device, n: Net)
    requires n.state == Off
    ensures var (next, m) := Round(d, n, Reset);
            && next == InitDone && m.state == InitPwron && m.node == n.node
            && PersistentNode(d, m) == PersistentNode(d, n) && Bootups(m.effects) == Bootups(n.effects)
  {
    hide Bootups, PersistentNode;
    RoundBootups(d, n, Reset);
    SameSettings(d, n, Round(d, n, Reset).1);
  }

  lemma SameSettings(d: Device, n: Net, m: Net)
    requires n.file == m.file && n.node == m.node
    ensures PersistentNode(d, n) == PersistentNode(d, m)
  {
  }

  /** A reset takes the persistent node-ID and settles. */
  lemma ResetSettles(d: Device, n: Net)
    requires Running(n.state) || n.state == Off
    ensures Settled(n, HandleEvent(d, n, Reset), PersistentNode(d, n))
  {
    hide HandleEvent, Round, Bootups, PersistentNode;
    Unfold(d, n, Reset);
    var (e1, m1) := Round(d, n, Reset);
    if n.state == Off {
      ToPowerOn(d, n);
      Unfold(d, m1, e1);
      ToResetApp(d, m1, e1);
      var (e2, m2) := Round(d, m1, e1);
      ResetCommSettles(d, m2, e2);
    } else {
      ToResetApp(d, n, Reset);
      ResetCommSettles(d, m1, e1);
    }
  }

  /** Any other event changes the state as the diagram says, and nothing about identity. */
  lemma OtherEvents(d: Device, n: Net, e: Event)
    requires e !in {Reset, ResetComm, InitDone}
    ensures var end := HandleEvent(d, n, e);
            && end.state == Diagram(n.state, e).next && end.node == n.node && end.pending == n.pending
            && end.file == n.file && Bootups(end.effects) == Bootups(n.effects)
  {
    hide HandleEvent, Bootups;
    RoundBootups(d, n, e);
    Unfold(d, n, e);
  }

  /** A node that is not running ignores every command and error behaviour. */
  lemma ParkedIgnores(d: Device, n: Net, e: Event)
    requires n.state == InitComm && e != InitDone
    ensures HandleEvent(d, n, e) == n
  {
  }
}
