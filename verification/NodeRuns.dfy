/** Whole runs of a node under NMT commands, error behaviour and LSS frames: which node-ID is
    pending, which is active, and how a parked node gets going. */
module NodeRuns {
  import opened Bytes
  import opened Nmt
  import opened NodeControl
  import opened SdoFrames
  import L = Lss

  // ----- LSS services

  const LSS_MASTER: nat := 0x7E5
  const LSS_SLAVE: nat := 0x7E4

  function Reply(n: Net, cmd: Byte, error: Byte): Net {
    Do(n, Send(LSS_SLAVE, [cmd, error] + Zeros(6)))
  }

  predicate Assignable(id: Byte) {
    1 <= id <= 127 || id == UNCONFIGURED
  }

  function SwitchGlobal(d: Device, n: Net, mode: Byte): Net {
    if mode > 1 then n
    else
      var m := n.(config := mode == 1);
      if n.config && mode == 0 && n.state == InitComm && n.pending != UNCONFIGURED then
        HandleEvent(d, m.(node := n.pending), InitDone)
      else m
  }

  function MatchCommand(cmd: Byte): L.Command
    requires 0x40 <= cmd <= 0x43 || 0x46 <= cmd <= 0x4B
  {
    match cmd
    case 0x40 => L.SwitchVendor case 0x41 => L.SwitchProduct
    case 0x42 => L.SwitchRevision case 0x43 => L.SwitchSerial
    case 0x46 => L.IdentifyVendor case 0x47 => L.IdentifyProduct
    case 0x48 => L.IdentifyRevisionLow case 0x49 => L.IdentifyRevisionHigh
    case 0x4A => L.IdentifySerialLow case _ => L.IdentifySerialHigh
  }

  /** The 32-bit value after the command. */
  function Value32(msg: Frame): U32 {
    LeBound(msg[1..5]);
    Pow256Values();
    Le(msg[1..5])
  }

  /** Switch selective and identify remote: a full match is answered, the first kind also
      enters configuration. */
  function Matching(d: Device, n: Net, msg: Frame): Net
    requires 0x40 <= msg[0] <= 0x43 || 0x46 <= msg[0] <= 0x4B
  {
    var f := L.Frame(MatchCommand(msg[0]), Value32(msg));
    var m := n.(level := L.Step(d.identity, n.level, f));
    if !L.Succeeds(d.identity, n.level, f) then m
    else if msg[0] <= 0x43 then Reply(m.(config := true), 0x44, 0)
    else Reply(m, 0x4F, 0)
  }

  function Identity(d: Device, n: Net, cmd: Byte): nat {
    match cmd
    case 0x5A => d.identity.vendor
    case 0x5B => d.identity.product
    case 0x5C => d.identity.revision
    case 0x5D => d.identity.serial
    case _ => n.node
  }

  /** Services that are ignored outside configuration. */
  function Configure(d: Device, n: Net, msg: Frame): Net {
    match msg[0]
    case 0x11 =>
      if Assignable(msg[1]) then Reply(n.(pending := msg[1]), 0x11, 0) else Reply(n, 0x11, 1)
    case 0x13 =>
      if msg[1] == 0 && msg[2] <= 8 && msg[2] != 5 then Reply(n.(pendingBitrate := BITRATES[msg[2]]), 0x13, 0)
      else Reply(n, 0x13, 1)
    case 0x15 => Do(n.(bitrate := n.pendingBitrate), RestartBus(n.pendingBitrate))
    case 0x17 =>
      if d.hasStore then Reply(n.(file := [n.pending] + ToLe(n.pendingBitrate, 4)), 0x17, 0) else Reply(n, 0x17, 1)
    case 0x4C => if n.state == InitComm then Reply(n, 0x50, 0) else n
    case _ =>
      if 0x5A <= msg[0] <= 0x5E then Do(n, Send(LSS_SLAVE, [msg[0]] + ToLe(Identity(d, n, msg[0]), 4) + Zeros(3)))
      else n
  }

  function LssStep(d: Device, n: Net, id: nat, msg: Frame, dlc: nat): Net {
    if id != LSS_MASTER || dlc != 8 then n
    else if msg[0] == 0x04 then SwitchGlobal(d, n, msg[1])
    else if 0x40 <= msg[0] <= 0x43 || 0x46 <= msg[0] <= 0x4B then Matching(d, n, msg)
    else if n.config then Configure(d, n, msg)
    else n
  }

  // ----- NMT and errors

  function CommandEvent(cmd: Byte): Event {
    match cmd
    case 0x01 => Start
    case 0x02 => ToStop
    case 0x80 => ToPreop
    case 0x81 => Reset
    case 0x82 => ResetComm
    case _ => NoEvent
  }

  function NmtStep(d: Device, n: Net, id: nat, msg: Frame, dlc: nat): Net {
    if id != 0 || (msg[1] != 0 && msg[1] != n.node) || dlc != 2 || CommandEvent(msg[0]) == NoEvent then n
    else HandleEvent(d, n, CommandEvent(msg[0]))
  }

  /** co_trigger_error_behavior, for a setting of object 1029h. */
  function ErrorStep(d: Device, n: Net, setting: Byte): Net {
    if setting == 0 && n.state == Op then HandleEvent(d, n, ToPreop)
    else if setting == 2 then HandleEvent(d, n, ToStop)
    else n
  }

  datatype Input =
    | NmtFrame(id: nat, msg: Frame, dlc: nat)
    | LssFrame(id: nat, msg: Frame, dlc: nat)
    | ErrorBehaviour(setting: Byte)

  function Step(d: Device, n: Net, i: Input): Net {
    match i
    case NmtFrame(id, msg, dlc) => NmtStep(d, n, id, msg, dlc)
    case LssFrame(id, msg, dlc) => LssStep(d, n, id, msg, dlc)
    case ErrorBehaviour(setting) => ErrorStep(d, n, setting)
  }

  function Run(d: Device, n: Net, inputs: seq<Input>): Net
    decreases |inputs|
  {
    if inputs == [] then n else Run(d, Step(d, n, inputs[0]), inputs[1..])
  }

  /** A node as co_init leaves it to the event loop. */
  function PowerOff(node: Byte, bitrate: U32, file: Data): Net {
    Net(Off, node, bitrate, false, 0, 0, 0, file, [])
  }

  // ----- node-ID safety

  /** The pending ID is one a node may be given, also in the store; a running node has a real
      one; between inputs a node runs or is parked. */
  predicate IdsOk(n: Net) {
    && Assignable(n.pending) && Assignable(n.node)
    && (|n.file| >= 1 ==> Assignable(n.file[0]))
    && (Running(n.state) ==> 1 <= n.node <= 127)
    && (Running(n.state) || n.state == InitComm)
  }

  lemma EventKeepsFile(d: Device, n: Net, e: Event)
    ensures HandleEvent(d, n, e).file == n.file
    decreases RoundsLeft(n.state, e)
  {
    var (next, m) := Round(d, n, e);
    if next != NoEvent {
      EventKeepsFile(d, m, next);
    }
  }

  lemma EventKeepsIds(d: Device, n: Net, e: Event)
    requires IdsOk(n) && e != InitDone
    ensures IdsOk(HandleEvent(d, n, e))
  {
    EventKeepsFile(d, n, e);
    hide HandleEvent;
    if n.state == InitComm {
      ParkedIgnores(d, n, e);
    } else if e == Reset {
      ResetSettles(d, n);
    } else if e == ResetComm {
      ResetCommSettles(d, n, e);
    } else {
      OtherEvents(d, n, e);
    }
  }

  /** A node configured with an assignable ID, and a store only ever written by LSS, boots into
      a safe state. */
  lemma BootKeepsIds(d: Device, node: Byte, bitrate: U32, file: Data)
    requires Assignable(node) && (|file| >= 1 ==> Assignable(file[0]))
    ensures IdsOk(HandleEvent(d, PowerOff(node, bitrate, file), Reset))
  {
    var n := PowerOff(node, bitrate, file);
    EventKeepsFile(d, n, Reset);
    ResetSettles(d, n);
  }

  lemma StepKeepsIds(d: Device, n: Net, i: Input)
    requires IdsOk(n)
    ensures IdsOk(Step(d, n, i))
  {
    hide HandleEvent, Matching, Configure, SwitchGlobal;
    match i
    case NmtFrame(id, msg, dlc) => EventKeepsIds(d, n, CommandEvent(msg[0]));
    case ErrorBehaviour(setting) =>
      EventKeepsIds(d, n, ToPreop);
      EventKeepsIds(d, n, ToStop);
    case LssFrame(id, msg, dlc) =>
      SwitchKeepsIds(d, n, msg[1]);
      ConfigureKeepsIds(d, n, msg);
      if 0x40 <= msg[0] <= 0x43 || 0x46 <= msg[0] <= 0x4B {
        MatchingKeeps(d, n, msg);
      }
  }

  lemma SwitchKeepsIds(d: Device, n: Net, mode: Byte)
    requires IdsOk(n)
    ensures IdsOk(SwitchGlobal(d, n, mode))
  {
    hide HandleEvent;
    if n.state == InitComm {
      InitCommSettles(d, n.(config := false, node := n.pending));
    }
  }

  lemma ConfigureKeepsIds(d: Device, n: Net, msg: Frame)
    requires IdsOk(n)
    ensures IdsOk(Configure(d, n, msg))
  {
    hide ToLe, Do, Reply, Identity;
    ActionsKeepIds();
  }

  lemma ActionsKeepIds()
    ensures forall n, a :: IdsOk(Do(n, a)) == IdsOk(n)
    ensures forall n, cmd, error :: IdsOk(Reply(n, cmd, error)) == IdsOk(n)
  {
    hide Zeros;
  }

  lemma MatchingKeeps(d: Device, n: Net, msg: Frame)
    requires 0x40 <= msg[0] <= 0x43 || 0x46 <= msg[0] <= 0x4B
    ensures var m := Matching(d, n, msg);
            m == n.(config := m.config, level := m.level, effects := m.effects)
  {
    hide L.Step, L.Succeeds, Zeros;
  }

  /** Over any interleaving of NMT commands, error behaviour and LSS frames. */
  lemma {:induction false} RunKeepsIds(d: Device, n: Net, inputs: seq<Input>)
    requires IdsOk(n)
    ensures IdsOk(Run(d, n, inputs))
    decreases |inputs|
  {
    hide Step;
    if inputs != [] {
      StepKeepsIds(d, n, inputs[0]);
      RunKeepsIds(d, Step(d, n, inputs[0]), inputs[1..]);
    }
  }

  /** A parked node gets going exactly by a switch from configuration to waiting with a valid
      pending ID, which becomes its own. */
  lemma ParkedLeavesIff(d: Device, n: Net, i: Input)
    requires IdsOk(n) && n.state == InitComm
    ensures var m := Step(d, n, i);
            && (m.state != InitComm
                <==> i.LssFrame? && i.id == LSS_MASTER && i.dlc == 8 && i.msg[0] == 0x04 && i.msg[1] == 0
                     && n.config && 1 <= n.pending <= 127)
            && (m.state != InitComm ==> m.state == Preop && m.node == n.pending
                                        && Bootups(m.effects) == Bootups(n.effects) + 1)
  {
    hide HandleEvent, Matching, Bootups;
    match i
    case NmtFrame(id, msg, dlc) => ParkedIgnores(d, n, CommandEvent(msg[0]));
    case ErrorBehaviour(setting) =>
      ParkedIgnores(d, n, ToPreop);
      ParkedIgnores(d, n, ToStop);
    case LssFrame(id, msg, dlc) =>
      InitCommSettles(d, n.(config := false, node := n.pending));
      if 0x40 <= msg[0] <= 0x43 || 0x46 <= msg[0] <= 0x4B {
        MatchingKeeps(d, n, msg);
      }
  }
}
