/** What a master sees of NMT: which frame does what to a node, and every action on the way
    (src/co_nmt.c, src/co_emcy.c, CiA 301 section 7.3.2). Commands, identifiers and ranges are
    written out. */
module NodeCommands {
  import opened Bytes
  import opened Nmt
  import P = Persistence
  import opened NodeControl
  import opened NodeRuns
  import F = SdoFrames

  /** Entering another state without an action. */
  function Enter(n: Net, s: State): Net {
    if n.state == s then n else n.(state := s, effects := n.effects + [StateChanged(s)])
  }

  /** Starting checks the mappings and sends what is due, unless the node is operational. */
  function Started(n: Net): Net {
    if n.state == Op then n else n.(state := Op, effects := n.effects + [StartPdos, StateChanged(Op)])
  }

  /** A communication reset restores 1000h to 1FFFh and the bus, and boots under the pending
      node-ID with one message of error-control identifier 700h plus that ID, or parks the node. */
  function CommReset(n: Net): Net {
    var reset := n.effects + [ResetDictionary(P.Comm, 0x1000, 0x1FFF), RestartBus(n.bitrate), StateChanged(InitComm)];
    if n.pending == 0xFF then n.(state := InitComm, effects := reset)
    else n.(state := Preop, node := n.pending,
            effects := reset + [Send(0x700 + n.pending, [0]), StateChanged(Preop)])
  }

  /** An application reset restores 2000h to 5FFFh and 6000h to 9FFFh before, and takes the
      persistent node-ID as the pending one. */
  function AppReset(d: Device, n: Net): Net {
    CommReset(n.(pending := PersistentNode(d, n),
                 effects := n.effects + [ResetDictionary(P.Mfg, 0x2000, 0x5FFF), ResetDictionary(P.App, 0x6000, 0x9FFF),
                                         StateChanged(InitApp)]))
  }

  lemma BootsUp(d: Device, n: Net)
    requires n.state == InitComm
    ensures HandleEvent(d, n, InitDone)
         == n.(state := Preop, effects := n.effects + [Send(0x700 + n.node, [0]), StateChanged(Preop)])
  {
    Unfold(d, n, InitDone);
    hide HandleEvent;
    var bootup := Do(n.(state := Preop), Send(0x700 + n.node, [0]));
    assert Round(d, n, InitDone) == (NoEvent, Do(bootup, StateChanged(Preop)));
  }

  lemma CommResetRuns(d: Device, n: Net, e: Event)
    requires (Running(n.state) && e == ResetComm) || (n.state == InitApp && e == InitDone)
    ensures HandleEvent(d, n, e) == CommReset(n)
  {
    Unfold(d, n, e);
    hide HandleEvent;
    var m := Do(Do(n.(state := InitComm), ResetDictionary(P.Comm, 0x1000, 0x1FFF)), RestartBus(n.bitrate));
    var reset := n.effects + [ResetDictionary(P.Comm, 0x1000, 0x1FFF), RestartBus(n.bitrate), StateChanged(InitComm)];
    assert Do(m, StateChanged(InitComm)).effects == reset;
    if n.pending != 0xFF {
      BootsUp(d, n.(state := InitComm, node := n.pending, effects := reset));
      assert Round(d, n, e) == (InitDone, n.(state := InitComm, node := n.pending, effects := reset));
    } else {
      assert Round(d, n, e) == (NoEvent, n.(state := InitComm, effects := reset));
    }
  }

  lemma AppResetRuns(d: Device, n: Net, e: Event)
    requires (Running(n.state) && e == Reset) || (n.state == InitPwron && e == InitDone)
    ensures HandleEvent(d, n, e) == AppReset(d, n)
  {
    hide PersistentNode, HandleEvent;
    Unfold(d, n, e);
    SameSettings(d, n, n.(state := InitApp));
    var mfg, app := ResetDictionary(P.Mfg, 0x2000, 0x5FFF), ResetDictionary(P.App, 0x6000, 0x9FFF);
    var effects := n.effects + [mfg, app, StateChanged(InitApp)];
    var m := n.(state := InitApp, pending := PersistentNode(d, n), effects := effects);
    var acted := Do(Do(n.(state := InitApp), mfg), app);
    assert Do(acted, StateChanged(InitApp)).effects == effects;
    assert Round(d, n, e) == (InitDone, m);
    CommResetRuns(d, m, InitDone);
  }

  /** Powering up starts in waiting state with an empty match, takes the stored bit rate, and then
      resets the application. */
  lemma PowersUp(d: Device, n: Net)
    requires n.state == Off
    ensures var rate := PersistentBitrate(d, n);
            HandleEvent(d, n, Reset)
            == AppReset(d, n.(config := false, level := 0, bitrate := rate, pendingBitrate := rate,
                              effects := n.effects + [StateChanged(InitPwron)]))
  {
    hide PersistentNode, PersistentBitrate, HandleEvent, AppReset;
    Unfold(d, n, Reset);
    RateOf(d, n);
    var rate := PersistentBitrate(d, n);
    var m := n.(state := InitPwron, config := false, level := 0, bitrate := rate, pendingBitrate := rate,
                effects := n.effects + [StateChanged(InitPwron)]);
    assert Round(d, n, Reset) == (InitDone, m);
    AppResetRuns(d, m, InitDone);
    AnyState(d, m, Off);
  }

  lemma RateOf(d: Device, n: Net)
    ensures PersistentBitrate(d, n.(state := InitPwron)) == PersistentBitrate(d, n)
  {
  }

  /** A reset does not depend on the state it starts in. */
  lemma AnyState(d: Device, n: Net, s: State)
    ensures AppReset(d, n.(state := s)) == AppReset(d, n)
  {
  }

  /** The NMT commands to a running node, addressed by its ID or to all. Any other command,
      address, identifier or length does nothing. */
  lemma CommandsMean(d: Device, n: Net, id: nat, msg: F.Frame, dlc: nat)
    requires Running(n.state)
    ensures Step(d, n, NmtFrame(id, msg, dlc))
         == if id != 0 || dlc != 2 || (msg[1] != 0 && msg[1] != n.node) then n
            else if msg[0] == 0x01 then Started(n)
            else if msg[0] == 0x02 then Enter(n, Stop)
            else if msg[0] == 0x80 then Enter(n, Preop)
            else if msg[0] == 0x81 then AppReset(d, n)
            else if msg[0] == 0x82 then CommReset(n)
            else n
  {
    hide HandleEvent, AppReset, CommReset, PersistentNode, PersistentBitrate;
    CommResetRuns(d, n, ResetComm);
    AppResetRuns(d, n, Reset);
    PlainEvents(d, n);
  }

  lemma PlainEvents(d: Device, n: Net)
    requires Running(n.state)
    ensures HandleEvent(d, n, Start) == Started(n)
    ensures HandleEvent(d, n, ToStop) == Enter(n, Stop)
    ensures HandleEvent(d, n, ToPreop) == Enter(n, Preop)
  {
    Unfold(d, n, Start);
    Unfold(d, n, ToStop);
    Unfold(d, n, ToPreop);
    hide HandleEvent;
    assert Do(Do(n.(state := Op), StartPdos), StateChanged(Op)).effects == n.effects + [StartPdos, StateChanged(Op)];
  }

  /** What a reset means for the bus: exactly one boot-up message, under the new node-ID, at the end
      of which the node is pre-operational; or none, and it is parked. */
  lemma ResetMeans(d: Device, n: Net)
    requires Running(n.state)
    ensures Settled(n, AppReset(d, n), PersistentNode(d, n)) && Settled(n, CommReset(n), n.pending)
  {
    CommResetRuns(d, n, ResetComm);
    ResetCommSettles(d, n, ResetComm);
    AppResetRuns(d, n, Reset);
    ResetSettles(d, n);
    hide HandleEvent, PersistentNode, Bootups;
  }

  /** Error behaviour (object 1029h): with setting 0 an operational node becomes pre-operational,
      with setting 2 a running node stops, and otherwise nothing happens. */
  lemma ErrorsMean(d: Device, n: Net, setting: Byte)
    requires Running(n.state)
    ensures Step(d, n, ErrorBehaviour(setting))
         == if setting == 0 && n.state == Op then Enter(n, Preop) else if setting == 2 then Enter(n, Stop) else n
  {
    hide HandleEvent;
    PlainEvents(d, n);
  }
}
