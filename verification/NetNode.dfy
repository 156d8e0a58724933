/** One node as the object that the NMT and LSS handlers update in place (src/co_nmt.c,
    src/co_lss.c). */
module NetNode {
  import opened Bytes
  import opened Bits
  import opened Nmt
  import P = Persistence
  import opened NodeControl
  import opened NodeRuns
  import F = SdoFrames
  import L = Lss

  class NetNode {
    const device: Device
    const fsm: array2<Cell>
    var state: State
    var node: Byte
    var bitrate: U32
    var config: bool
    var pending: Byte
    var pendingBitrate: U32
    var matched: L.Word8
    ghost var level: nat
    var file: Data
    var effects: seq<Effect>

    /** Off, with an empty match mask; Event (Reset) is the rest of co_nmt_init. */
    constructor (device: Device, node: Byte, bitrate: U32, file: Data)
      ensures Valid() && fresh(fsm) && this.device == device
      ensures View() == PowerOff(node, bitrate, file)
    {
      var table := BuildTable();
      this.device, this.node, this.bitrate, this.file := device, node, bitrate, file;
      fsm := table;
      state, config, pending, pendingBitrate := Off, false, 0, 0;
      matched, level, effects := Zero(8), 0, [];
      new;
      assert matched == L.Prefix(0);
    }

    /** The table is the state diagram, and the match mask holds the criteria met in order. */
    ghost predicate Valid()
      reads this, fsm
    {
      && fsm.Length0 == 7 && fsm.Length1 == 8
      && (forall s, e :: fsm[StateNo(s), EventNo(e)] == Diagram(s, e))
      && level <= 5 && matched == L.Prefix(level)
    }

    ghost function View(): Net
      reads this
    {
      Net(state, node, bitrate, config, pending, pendingBitrate, level, file, effects)
    }

    method Emit(e: Effect)
      modifies this`effects
      ensures View() == Do(old(View()), e)
    {
      effects := effects + [e];
    }

    // ----- persistent settings

    method PersistentNodeId() returns (id: Byte)
      ensures id == PersistentNode(device, View())
    {
      if !device.hasStore {
        return node;
      }
      if |file| < 1 {
        return node;
      }
      id := file[0];
      if id == 0 {
        return node;
      }
    }

    method PersistentRate() returns (rate: U32)
      ensures rate == PersistentBitrate(device, View())
    {
      if !device.hasStore || |file| < 5 {
        return bitrate;
      }
      if file[0] == 0 {
        return bitrate;
      }
      LeBound(file[1..5]);
      Pow256Values();
      return Le(file[1..5]);
    }

    // ----- actions of the state machine

    method ResetApplication() returns (next: Event)
      modifies this`effects, this`pending
      ensures (next, View()) == Act(device, DoResetApp, old(View()))
    {
      Emit(ResetDictionary(P.Mfg, 0x2000, 0x5FFF));
      Emit(ResetDictionary(P.App, 0x6000, 0x9FFF));
      pending := PersistentNodeId();
      return InitDone;
    }

    method ResetCommunication() returns (next: Event)
      modifies this`effects, this`node
      ensures (next, View()) == Act(device, DoResetComm, old(View()))
    {
      Emit(ResetDictionary(P.Comm, 0x1000, 0x1FFF));
      Emit(RestartBus(bitrate));
      if pending != UNCONFIGURED {
        node := pending;
        return InitDone;
      }
      return NoEvent;
    }

    method PowerOn() returns (next: Event)
      modifies this`config, this`matched, this`level, this`pendingBitrate, this`bitrate
      ensures (next, View()) == Act(device, DoPoweron, old(View()))
      ensures matched == L.Prefix(0)
    {
      config := false;
      matched, level := Zero(8), 0;
      assert matched == L.Prefix(0);
      pendingBitrate := PersistentRate();
      bitrate := pendingBitrate;
      return InitDone;
    }

    method Perform(a: Action) returns (next: Event)
      requires Valid()
      modifies this
      ensures Valid()
      ensures (next, View()) == Act(device, a, old(View()))
    {
      hide Diagram, PersistentNode, PersistentBitrate;
      match a
      case NoAction => next := NoEvent;
      case DoPoweron => next := PowerOn();
      case DoResetApp => next := ResetApplication();
      case DoResetComm => next := ResetCommunication();
      case DoBootup =>
        Emit(Send(0x700 + node, [0]));
        next := NoEvent;
      case DoStart =>
        Emit(StartPdos);
        next := NoEvent;
    }

    /** co_nmt_event: follow the table until an action raises no further event. */
    method HandleEvents(first: Event)
      requires Valid()
      modifies this
      ensures Valid()
      ensures View() == HandleEvent(device, old(View()), first)
    {
      hide Diagram, Act, RoundsLeft;
      var event := first;
      var more := true;
      while more
        invariant Valid()
        invariant HandleEvent(device, old(View()), first) == if more then HandleEvent(device, View(), event) else View()
        decreases if more then RoundsLeft(state, event) + 1 else 0
      {
        ghost var before, taken := View(), event;
        var previous := state;
        var element := fsm[StateNo(previous), EventNo(event)];
        state := element.next;
        event := Perform(element.action);
        if previous != state {
          Emit(StateChanged(state));
        }
        assert (event, View()) == Round(device, before, taken);
        RoundDecreases(device, before, taken);
        more := event != NoEvent;
      }
    }

    // ----- NMT commands and error behaviour

    method NmtRx(id: nat, msg: F.Frame, dlc: nat)
      requires Valid()
      modifies this
      ensures Valid()
      ensures View() == NmtStep(device, old(View()), id, msg, dlc)
    {
      hide HandleEvent, Diagram;
      if id != 0 {
        return;
      }
      if msg[1] != 0 && msg[1] != node {
        return;
      }
      if dlc != 2 {
        return;
      }
      match msg[0] {
        case 0x01 => HandleEvents(Start);
        case 0x02 => HandleEvents(ToStop);
        case 0x80 => HandleEvents(ToPreop);
        case 0x81 => HandleEvents(Reset);
        case 0x82 => HandleEvents(ResetComm);
        case _ =>
      }
    }

    method TriggerErrorBehaviour(setting: Byte)
      requires Valid()
      modifies this
      ensures Valid()
      ensures View() == ErrorStep(device, old(View()), setting)
    {
      hide HandleEvent, Diagram;
      match setting {
        case 0 =>
          if state == Op {
            HandleEvents(ToPreop);
          }
        case 2 => HandleEvents(ToStop);
        case _ =>
      }
    }

    // ----- LSS services

    method SendReply(cmd: Byte, error: Byte)
      modifies this`effects
      ensures View() == Reply(old(View()), cmd, error)
    {
      Emit(Send(LSS_SLAVE, [cmd, error] + Zeros(6)));
    }

    method GlobalSwitch(msg: F.Frame)
      requires Valid()
      modifies this
      ensures Valid()
      ensures View() == SwitchGlobal(device, old(View()), msg[1])
    {
      hide HandleEvent, Diagram;
      var previous := config;
      if msg[1] > 1 {
        return;
      }
      config := msg[1] == 1;
      if previous && !config {
        if state == InitComm {
          if pending != UNCONFIGURED {
            node := pending;
            HandleEvents(InitDone);
          }
        }
      }
    }

    method ConfigureNodeId(msg: F.Frame)
      requires msg[0] == 0x11
      modifies this`pending, this`effects
      ensures View() == if old(config) then Configure(device, old(View()), msg) else old(View())
    {
      hide Zeros;
      if !config {
        return;
      }
      var error: Byte := 0;
      if (msg[1] > 0 && msg[1] < 0x80) || msg[1] == UNCONFIGURED {
        pending := msg[1];
      } else {
        error := 1;
      }
      SendReply(0x11, error);
    }

    method ConfigureBitTiming(msg: F.Frame)
      requires msg[0] == 0x13
      modifies this`pendingBitrate, this`effects
      ensures View() == if old(config) then Configure(device, old(View()), msg) else old(View())
    {
      hide Zeros;
      if !config {
        return;
      }
      var error: Byte := 0;
      if msg[1] == 0 && msg[2] <= 8 && msg[2] != 5 {
        pendingBitrate := BITRATES[msg[2]];
      } else {
        error := 1;
      }
      SendReply(0x13, error);
    }

    method ActivateBitTiming(msg: F.Frame)
      requires msg[0] == 0x15
      modifies this`bitrate, this`effects
      ensures View() == if old(config) then Configure(device, old(View()), msg) else old(View())
    {
      if !config {
        return;
      }
      bitrate := pendingBitrate;
      Emit(RestartBus(bitrate));
    }

    method StoreConfiguration(msg: F.Frame)
      requires msg[0] == 0x17
      modifies this`file, this`effects
      ensures View() == if old(config) then Configure(device, old(View()), msg) else old(View())
    {
      hide Zeros, ToLe;
      if !config {
        return;
      }
      if !device.hasStore {
        SendReply(0x17, 1);
        return;
      }
      file := [pending];
      file := file + ToLe(pendingBitrate, 4);
      SendReply(0x17, 0);
    }

    method InquireIdentity(msg: F.Frame)
      requires 0x5A <= msg[0] <= 0x5E
      modifies this`effects
      ensures View() == if old(config) then Configure(device, old(View()), msg) else old(View())
    {
      hide Zeros, ToLe;
      if !config {
        return;
      }
      var value := node as nat;
      match msg[0] {
        case 0x5A => value := device.identity.vendor;
        case 0x5B => value := device.identity.product;
        case 0x5C => value := device.identity.revision;
        case 0x5D => value := device.identity.serial;
        case _ =>
      }
      Emit(Send(LSS_SLAVE, [msg[0]] + ToLe(value, 4) + Zeros(3)));
    }

    method IdentifyNonConfigured(msg: F.Frame)
      requires msg[0] == 0x4C
      modifies this`effects
      ensures View() == if old(config) then Configure(device, old(View()), msg) else old(View())
    {
      hide Zeros;
      if !config {
        return;
      }
      if state != InitComm {
        return;
      }
      SendReply(0x50, 0);
    }

    /** co_lss_match: one criterion against the device's identity. */
    method Match(c: L.Criterion, expected: nat)
      requires level <= 6 && matched == L.Prefix(level)
      modifies this`matched, this`level
      ensures level == L.Advance(device.identity, old(level), c, expected) <= 6
      ensures matched == L.Prefix(level)
    {
      matched := L.Match(device.identity, matched, c, expected, level);
      level := L.Advance(device.identity, level, c, expected);
    }

    /** Whether all six criteria are met; the mask is cleared if so. */
    method TakeSuccess() returns (all: bool)
      requires level <= 6 && matched == L.Prefix(level)
      modifies this`matched, this`level
      ensures all == (old(level) == 6)
      ensures level == if all then 0 else old(level)
      ensures level <= 5 && matched == L.Prefix(level)
    {
      LowMask(8, 6);
      assert L.Prefix(6) == Decrement(Single(8, 6));
      assert L.Prefix(level)[5] == (level > 5);
      all := matched == Decrement(Single(8, 6));
      if all {
        matched, level := Zero(8), 0;
        assert matched == L.Prefix(0);
      }
    }

    method SwitchSelective(msg: F.Frame)
      requires Valid() && 0x40 <= msg[0] <= 0x43
      modifies this
      ensures Valid()
      ensures View() == Matching(device, old(View()), msg)
    {
      hide Zeros, L.Advance, L.Prefix, Diagram, Value32;
      var expected := Value32(msg);
      match msg[0] {
        case 0x40 => Match(L.Vendor, expected);
        case 0x41 => Match(L.Product, expected);
        case 0x42 =>
          Match(L.RevisionLow, expected);
          Match(L.RevisionHigh, expected);
        case _ =>
          Match(L.SerialLow, expected);
          Match(L.SerialHigh, expected);
      }
      var all := TakeSuccess();
      if all {
        config := true;
        SendReply(0x44, 0);
      }
    }

    method IdentifyRemote(msg: F.Frame)
      requires Valid() && 0x46 <= msg[0] <= 0x4B
      modifies this
      ensures Valid()
      ensures View() == Matching(device, old(View()), msg)
    {
      hide Zeros, L.Advance, L.Prefix, Diagram, Value32;
      var expected := Value32(msg);
      match msg[0] {
        case 0x46 => Match(L.Vendor, expected);
        case 0x47 => Match(L.Product, expected);
        case 0x48 => Match(L.RevisionLow, expected);
        case 0x49 => Match(L.RevisionHigh, expected);
        case 0x4A => Match(L.SerialLow, expected);
        case _ => Match(L.SerialHigh, expected);
      }
      var all := TakeSuccess();
      if all {
        SendReply(0x4F, 0);
      }
    }

    method LssRx(id: nat, msg: F.Frame, dlc: nat)
      requires Valid()
      modifies this
      ensures Valid()
      ensures View() == LssStep(device, old(View()), id, msg, dlc)
    {
      hide Matching, SwitchGlobal, Diagram, Zeros, ToLe;
      if id != LSS_MASTER {
        return;
      }
      if dlc != 8 {
        return;
      }
      if msg[0] == 0x04 {
        GlobalSwitch(msg);
      } else if msg[0] == 0x11 {
        ConfigureNodeId(msg);
      } else if msg[0] == 0x13 {
        ConfigureBitTiming(msg);
      } else if msg[0] == 0x15 {
        ActivateBitTiming(msg);
      } else if msg[0] == 0x17 {
        StoreConfiguration(msg);
      } else if 0x40 <= msg[0] <= 0x43 {
        SwitchSelective(msg);
      } else if 0x5A <= msg[0] <= 0x5E {
        InquireIdentity(msg);
      } else if msg[0] == 0x4C {
        IdentifyNonConfigured(msg);
      } else if 0x46 <= msg[0] <= 0x4B {
        IdentifyRemote(msg);
      }
    }
  }
}
