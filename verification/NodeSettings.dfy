/** What LSS is for: giving a node an ID and a bit rate, keeping them over a power cycle, and
    finding and addressing slaves (src/co_lss.c, CiA 305). */
module NodeSettings {
  import opened Bytes
  import opened Nmt
  import opened NodeControl
  import opened NodeRuns
  import F = SdoFrames
  import L = Lss

  // ----- bit rates

  predicate Supported(rate: nat) {
    rate in {1000000, 800000, 500000, 250000, 125000, 50000, 20000, 10000}
  }

  function StoredRate(file: Data): nat
    requires |file| >= 5
  {
    Le(file[1..5])
  }

  /** Active, pending and stored bit rate are supported ones, or the one configured at start. */
  predicate RatesOk(n: Net, configured: U32) {
    && (Supported(n.bitrate) || n.bitrate == configured)
    && (Supported(n.pendingBitrate) || n.pendingBitrate == configured)
    && FileRateOk(n.file, configured)
  }

  predicate FileRateOk(file: Data, configured: U32) {
    |file| >= 5 && file[0] != 0 ==> Supported(StoredRate(file)) || StoredRate(file) == configured
  }

  lemma PersistentRateOk(d: Device, n: Net, configured: U32)
    requires FileRateOk(n.file, configured)
    ensures var r := PersistentBitrate(d, n); Supported(r) || r == configured || r == n.bitrate
  {
    hide Le;
  }

  lemma RoundKeepsRates(d: Device, n: Net, e: Event, configured: U32)
    requires RatesOk(n, configured)
    ensures RatesOk(Round(d, n, e).1, configured)
  {
    hide Diagram, Act, RatesOk;
    var cell := Diagram(n.state, e);
    SameRates(n, n.(state := cell.next), configured);
    ActKeepsRates(d, cell.action, n.(state := cell.next), configured);
    var acted := Act(d, cell.action, n.(state := cell.next)).1;
    SameRates(acted, Do(acted, StateChanged(acted.state)), configured);
  }

  lemma SameRates(n: Net, m: Net, configured: U32)
    requires RatesOk(n, configured)
    requires m.bitrate == n.bitrate && m.pendingBitrate == n.pendingBitrate && m.file == n.file
    ensures RatesOk(m, configured)
  {
  }

  lemma ActKeepsRates(d: Device, a: Action, n: Net, configured: U32)
    requires RatesOk(n, configured)
    ensures RatesOk(Act(d, a, n).1, configured)
  {
    hide PersistentBitrate, PersistentNode, Supported, FileRateOk;
    PersistentRateOk(d, n, configured);
  }

  lemma {:induction false} EventKeepsRates(d: Device, n: Net, e: Event, configured: U32)
    requires RatesOk(n, configured)
    ensures RatesOk(HandleEvent(d, n, e), configured)
    decreases RoundsLeft(n.state, e)
  {
    RoundKeepsRates(d, n, e, configured);
    RoundDecreases(d, n, e);
    hide RatesOk, Round;
    var (next, m) := Round(d, n, e);
    if next != NoEvent {
      EventKeepsRates(d, m, next, configured);
    }
  }

  lemma ConfigureKeepsRates(d: Device, n: Net, msg: F.Frame, configured: U32)
    requires RatesOk(n, configured)
    ensures RatesOk(Configure(d, n, msg), configured)
  {
    hide Zeros, ToLe, FileRateOk, Supported;
    TableSupported(msg[2]);
    StoredFileOk(n.pending, n.pendingBitrate, configured);
  }

  lemma TableSupported(ix: Byte)
    ensures ix <= 8 && ix != 5 ==> Supported(BITRATES[ix])
  {
  }

  lemma StoredFileOk(id: Byte, rate: U32, configured: U32)
    ensures FileRateOk([id] + ToLe(rate, 4), configured) <==> id == 0 || Supported(rate) || rate == configured
  {
    StoredFile(id, rate);
    hide Supported;
  }

  /** The store file holds the pending ID and bit rate. */
  lemma StoredFile(id: Byte, rate: U32)
    ensures var file := [id] + ToLe(rate, 4); |file| == 5 && file[0] == id && StoredRate(file) == rate
  {
    Pow256Values();
    LeOfToLeFits(rate, 4);
    var file := [id] + ToLe(rate, 4);
    assert file[1..5] == ToLe(rate, 4);
  }

  lemma StepKeepsRates(d: Device, n: Net, i: Input, configured: U32)
    requires RatesOk(n, configured)
    ensures RatesOk(Step(d, n, i), configured)
  {
    hide HandleEvent, Matching, Configure, Supported, FileRateOk;
    match i
    case NmtFrame(id, msg, dlc) => EventKeepsRates(d, n, CommandEvent(msg[0]), configured);
    case ErrorBehaviour(setting) =>
      EventKeepsRates(d, n, ToPreop, configured);
      EventKeepsRates(d, n, ToStop, configured);
    case LssFrame(id, msg, dlc) =>
      EventKeepsRates(d, n.(config := msg[1] == 1, node := n.pending), InitDone, configured);
      ConfigureKeepsRates(d, n, msg, configured);
      if 0x40 <= msg[0] <= 0x43 || 0x46 <= msg[0] <= 0x4B {
        MatchingKeeps(d, n, msg);
      }
  }

  /** Over any run the active, pending and stored bit rates are supported ones or the one
      configured at start: nothing a master sends makes a node pend, store or activate another. */
  lemma {:induction false} RunKeepsRates(d: Device, n: Net, inputs: seq<Input>, configured: U32)
    requires RatesOk(n, configured)
    ensures RatesOk(Run(d, n, inputs), configured)
    decreases |inputs|
  {
    hide Step, RatesOk;
    if inputs != [] {
      StepKeepsRates(d, n, inputs[0], configured);
      RunKeepsRates(d, Step(d, n, inputs[0]), inputs[1..], configured);
    }
  }

  /** Booting with a store written only by LSS ends with such rates. */
  lemma BootKeepsRates(d: Device, node: Byte, configured: U32, file: Data)
    requires FileRateOk(file, configured)
    ensures RatesOk(HandleEvent(d, PowerOff(node, configured, file), Reset), configured)
  {
    BootTakes(d, PowerOff(node, configured, file));
    EventKeepsFile(d, PowerOff(node, configured, file), Reset);
    PersistentRateOk(d, PowerOff(node, configured, file), configured);
    hide HandleEvent, PersistentBitrate;
  }

  // ----- what a boot takes from the store

  lemma RoundKeepsRate(d: Device, n: Net, e: Event)
    requires n.state != Off
    ensures var m := Round(d, n, e).1;
            m.bitrate == n.bitrate && m.pendingBitrate == n.pendingBitrate && m.state != Off
  {
  }

  lemma {:induction false} RunningKeepsRate(d: Device, n: Net, e: Event)
    requires n.state != Off
    ensures var m := HandleEvent(d, n, e); m.bitrate == n.bitrate && m.pendingBitrate == n.pendingBitrate
    decreases RoundsLeft(n.state, e)
  {
    RoundKeepsRate(d, n, e);
    RoundDecreases(d, n, e);
    hide Round;
    var (next, m) := Round(d, n, e);
    if next != NoEvent {
      RunningKeepsRate(d, m, next);
    }
  }

  /** A boot takes bit rate and node-ID from the store, if it holds them. */
  lemma BootTakes(d: Device, n: Net)
    requires n.state == Off
    ensures var end := HandleEvent(d, n, Reset);
            && end.bitrate == end.pendingBitrate == PersistentBitrate(d, n)
            && Settled(n, end, PersistentNode(d, n))
  {
    hide HandleEvent, PersistentBitrate, PersistentNode, Settled;
    ResetSettles(d, n);
    Unfold(d, n, Reset);
    SameRate(d, n);
    var (next, m) := Round(d, n, Reset);
    RunningKeepsRate(d, m, next);
  }

  lemma SameRate(d: Device, n: Net)
    requires n.state == Off
    ensures var (next, m) := Round(d, n, Reset);
            next == InitDone && m.state == InitPwron && m.bitrate == m.pendingBitrate == PersistentBitrate(d, n)
  {
    RateOfState(d, n);
    hide PersistentBitrate;
  }

  lemma RateOfState(d: Device, n: Net)
    ensures PersistentBitrate(d, n.(state := InitPwron)) == PersistentBitrate(d, n)
  {
  }

  /** A configuration that is stored survives a power cycle: whatever the device was configured
      with, it boots with the pending node-ID and bit rate that were stored. */
  lemma StoredSurvivesPowerCycle(d: Device, n: Net, msg: F.Frame, node: Byte, bitrate: U32)
    requires d.hasStore && n.config && n.pending != 0 && msg[0] == 0x17
    ensures var stored := LssStep(d, n, LSS_MASTER, msg, 8);
            var end := HandleEvent(d, PowerOff(node, bitrate, stored.file), Reset);
            && end.pending == n.pending && end.bitrate == end.pendingBitrate == n.pendingBitrate
            && (if n.pending != UNCONFIGURED then end.state == Preop && end.node == n.pending
                else end.state == InitComm && end.node == node)
  {
    var stored := LssStep(d, n, LSS_MASTER, msg, 8);
    assert stored.file == [n.pending] + ToLe(n.pendingBitrate, 4);
    StoredFile(n.pending, n.pendingBitrate);
    BootTakes(d, PowerOff(node, bitrate, stored.file));
    hide HandleEvent, LssStep;
  }

  /** Without a store, or with one that holds no ID, a device boots as it was configured. */
  lemma UnstoredBootsAsConfigured(d: Device, node: Byte, bitrate: U32, file: Data)
    requires !d.hasStore || file == [] || file[0] == 0
    ensures var end := HandleEvent(d, PowerOff(node, bitrate, file), Reset);
            end.bitrate == end.pendingBitrate == bitrate && end.pending == node
  {
    BootTakes(d, PowerOff(node, bitrate, file));
    hide HandleEvent;
  }

  /** The active bit rate of a node that is up changes only by the activate service in
      configuration, which takes the pending one and restarts the bus with it. */
  lemma RateChangesOnlyByActivation(d: Device, n: Net, i: Input)
    requires IdsOk(n)
    ensures var m := Step(d, n, i);
            var activates := i.LssFrame? && i.id == LSS_MASTER && i.dlc == 8 && i.msg[0] == 0x15 && n.config;
            && (m.bitrate != n.bitrate ==> activates)
            && (activates ==> m.bitrate == n.pendingBitrate && m.effects == n.effects + [RestartBus(m.bitrate)])
  {
    hide HandleEvent, Matching, Zeros, ToLe;
    match i
    case NmtFrame(id, msg, dlc) => RunningKeepsRate(d, n, CommandEvent(msg[0]));
    case ErrorBehaviour(setting) =>
      RunningKeepsRate(d, n, ToPreop);
      RunningKeepsRate(d, n, ToStop);
    case LssFrame(id, msg, dlc) =>
      RunningKeepsRate(d, n.(config := msg[1] == 1, node := n.pending), InitDone);
      if 0x40 <= msg[0] <= 0x43 || 0x46 <= msg[0] <= 0x4B {
        MatchingKeeps(d, n, msg);
      }
  }

  // ----- finding and addressing slaves

  /** A request or reply of one command and one 32-bit value. */
  function Ask(cmd: Byte, value: U32): F.Frame {
    [cmd] + ToLe(value, 4) + Zeros(3)
  }

  lemma AskCarries(cmd: Byte, value: U32)
    ensures Ask(cmd, value)[0] == cmd && Value32(Ask(cmd, value)) == value
  {
    Pow256Values();
    LeOfToLeFits(value, 4);
    assert Ask(cmd, value)[1..5] == ToLe(value, 4);
  }

  function Field(id: L.Identity, k: nat): U32
    requires k < 4
  {
    if k == 0 then id.vendor else if k == 1 then id.product else if k == 2 then id.revision else id.serial
  }

  /** The four switch-selective requests that name a slave, one after the other. */
  function Address(d: Device, n: Net, named: L.Identity, k: nat): Net
    requires k <= 4
  {
    if k == 0 then n
    else LssStep(d, Address(d, n, named, k - 1), LSS_MASTER, Ask(0x40 + (k - 1), Field(named, k - 1)), 8)
  }

  /** One of them is a step of the match level, answered on a full match. */
  lemma AddressStep(d: Device, n: Net, cmd: Byte, value: U32)
    requires 0x40 <= cmd <= 0x43
    ensures var f := L.Frame(MatchCommand(cmd), value);
            var m := LssStep(d, n, LSS_MASTER, Ask(cmd, value), 8);
            m == if L.Succeeds(d.identity, n.level, f)
                 then Reply(n.(level := L.Step(d.identity, n.level, f), config := true), 0x44, 0)
                 else n.(level := L.Step(d.identity, n.level, f))
  {
    AskCarries(cmd, value);
    hide L.Step, L.Succeeds, Ask, Value32, Zeros;
  }

  /** On the wire: the four requests make exactly the slave they name enter configuration and
      answer, from any state in which it may be; every other slave is left as it was but for the
      match level. */
  lemma AddressSelectsIff(d: Device, n: Net, named: L.Identity)
    requires n.level <= 5
    ensures var end := Address(d, n, named, 4);
            if d.identity == named then end == Reply(n.(level := 0, config := true), 0x44, 0)
            else end == n.(level := end.level)
  {
    hide L.Step, L.Succeeds, Ask, LssStep, Zeros;
    var f1, f2 := L.Frame(L.SwitchVendor, named.vendor), L.Frame(L.SwitchProduct, named.product);
    var f3 := L.Frame(L.SwitchRevision, named.revision);
    var l1 := L.Step(d.identity, n.level, f1);
    var l2 := L.Step(d.identity, l1, f2);
    var l3 := L.Step(d.identity, l2, f3);
    L.AddressedIff(d.identity, n.level, named);
    AddressStep(d, n, 0x40, named.vendor);
    AddressStep(d, n.(level := l1), 0x41, named.product);
    AddressStep(d, n.(level := l2), 0x42, named.revision);
    AddressStep(d, n.(level := l3), 0x43, named.serial);
    assert Address(d, n, named, 0) == n;
    assert Address(d, n, named, 1) == n.(level := l1);
    assert Address(d, n, named, 2) == n.(level := l2);
    assert Address(d, n, named, 3) == n.(level := l3);
  }

  /** Inquiring field `k` of the identity of a slave in configuration is answered with it; a slave
      that is not in configuration does not answer. */
  lemma InquiryTellsField(d: Device, n: Net, msg: F.Frame, k: nat)
    requires k < 4 && msg[0] == 0x5A + k
    ensures LssStep(d, n, LSS_MASTER, msg, 8)
         == if n.config then Do(n, Send(LSS_SLAVE, Ask(0x5A + k, Field(d.identity, k)))) else n
  {
    hide Zeros, ToLe;
  }

  /** What a slave tells about itself is what addresses it, and it alone: a master that asks the
      values of the four replies selects exactly the slaves with the identity of the one that
      gave them. */
  lemma InquiredIdentitySelects(d: Device, n: Net, msg: F.Frame, k: nat, other: Device, there: Net)
    requires n.config && k < 4 && msg[0] == 0x5A + k && there.level <= 5
    ensures var reply := LssStep(d, n, LSS_MASTER, msg, 8).effects[|n.effects|];
            reply.Send? && reply.id == LSS_SLAVE && |reply.data| == 8 && Value32(reply.data) == Field(d.identity, k)
    ensures Address(other, there, d.identity, 4).effects != there.effects <==> other.identity == d.identity
  {
    InquiryTellsField(d, n, msg, k);
    AskCarries(0x5A + k, Field(d.identity, k));
    AddressSelectsIff(other, there, d.identity);
    hide Address, LssStep, Value32, Ask, Zeros;
  }

  /** Identify non-configured slaves is answered by exactly the slaves in configuration that have
      no node-ID to run with. */
  lemma NonConfiguredAnswersIff(d: Device, n: Net, msg: F.Frame)
    requires IdsOk(n) && msg[0] == 0x4C
    ensures var m := LssStep(d, n, LSS_MASTER, msg, 8);
            && (m != n <==> n.config && !Running(n.state))
            && (m != n ==> m == Reply(n, 0x50, 0))
  {
    hide Zeros;
    assert Reply(n, 0x50, 0).effects != n.effects by {
      assert |Reply(n, 0x50, 0).effects| == |n.effects| + 1;
    }
  }

  // ----- commissioning

  /** Address a slave, give it an ID, store it, and switch to waiting. */
  function Commission(d: Device, n: Net, named: L.Identity, id: Byte): Net {
    var selected := Address(d, n, named, 4);
    var configured := LssStep(d, selected, LSS_MASTER, Ask(0x11, id), 8);
    var stored := LssStep(d, configured, LSS_MASTER, Ask(0x17, 0), 8);
    LssStep(d, stored, LSS_MASTER, Ask(0x04, 0), 8)
  }

  /** Commissioning gets a parked node going under its new ID, with one boot-up message, and for
      good: it boots under that ID from then on, and no longer answers as non-configured. A parked
      node of another identity that is not in configuration is left as it was but for the match
      level. */
  lemma CommissioningWorks(d: Device, n: Net, named: L.Identity, id: Byte, node: Byte, bitrate: U32, msg: F.Frame)
    requires IdsOk(n) && n.state == InitComm && n.level <= 5 && d.hasStore && 1 <= id <= 127 && msg[0] == 0x4C
    requires d.identity != named ==> !n.config
    ensures var end := Commission(d, n, named, id);
            if d.identity == named then
              var again := HandleEvent(d, PowerOff(node, bitrate, end.file), Reset);
              && end.state == Preop && end.node == id && !end.config
              && Bootups(end.effects) == Bootups(n.effects) + 1
              && again.state == Preop && again.node == id && again.bitrate == n.pendingBitrate
              && LssStep(d, end, LSS_MASTER, msg, 8) == end
            else end == n.(level := end.level)
  {
    hide Address, HandleEvent, Bootups, Zeros, ToLe, PersistentNode, PersistentBitrate;
    AddressSelectsIff(d, n, named);
    AskFirst(id);
    var selected := Address(d, n, named, 4);
    if d.identity == named {
      var configured := LssStep(d, selected, LSS_MASTER, Ask(0x11, id), 8);
      Quiet(n.(level := 0, config := true), 0x44);
      Quiet(selected.(pending := id), 0x11);
      assert configured == Reply(selected.(pending := id), 0x11, 0);
      var stored := LssStep(d, configured, LSS_MASTER, Ask(0x17, 0), 8);
      assert stored == Reply(configured.(file := [id] + ToLe(n.pendingBitrate, 4)), 0x17, 0);
      Quiet(configured.(file := [id] + ToLe(n.pendingBitrate, 4)), 0x17);
      InitCommSettles(d, stored.(config := false, node := id));
      StoredSurvivesPowerCycle(d, configured, Ask(0x17, 0), node, bitrate);
    }
  }

  lemma AskFirst(id: Byte)
    ensures Ask(0x11, id)[0] == 0x11 && Ask(0x11, id)[1] == id
    ensures Ask(0x17, 0)[0] == 0x17 && Ask(0x04, 0)[0] == 0x04 && Ask(0x04, 0)[1] == 0
  {
  }

  /** Answers are not boot-up messages. */
  lemma Quiet(n: Net, cmd: Byte)
    requires cmd != 0
    ensures Bootups(Reply(n, cmd, 0).effects) == Bootups(n.effects)
  {
    BootupsOfDo(n, Send(LSS_SLAVE, [cmd, 0] + Zeros(6)));
    assert ([cmd, 0] + Zeros(6))[0] != 0;
  }
}
