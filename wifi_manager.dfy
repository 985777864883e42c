/**
 * The WiFi mode state machine of main/wifi_manager.c: the boot choice
 * between station and access point, the STA/AP flip run by a one-at-a-time
 * switch task, the driver configurations built from the record, and the
 * record updates of the WiFi event handler. Driver calls (esp_wifi_*,
 * esp_netif_*) are steps without effect on the model, except that creating a
 * default netif may fail, which is an input.
 */
module WifiManager {
  import opened Esp
  import opened StateManager
  import StatusLed

  /** WIFI_AP_MAX_CONN. */
  const ApMaxConnections := 4

  /** 192.168.4.1 as IP4_ADDR stores it, in memory order. */
  const ApAddress: seq<Byte> := [192, 168, 4, 1]

  /** The address of an interface without one, 0.0.0.0. */
  const NoAddress: seq<Byte> := [0, 0, 0, 0]

  /** sizeof(wifi_config.ap.ssid) and sizeof(wifi_config.ap.password); the STA fields are as wide. */
  const ConfigSsidSize := 32
  const ConfigPassSize := 64

  datatype AuthMode = AuthOpen | AuthWpa2Psk | AuthWpaWpa2Psk

  /** The wifi_config_t.sta handed to esp_wifi_set_config by wifi_sta_init. */
  datatype StaConfig = StaConfig(ssid: seq<char>, password: seq<char>, threshold: AuthMode)

  /** The wifi_config_t.ap handed to esp_wifi_set_config by wifi_ap_init. */
  datatype ApConfig = ApConfig(ssid: seq<char>, ssidLen: nat, password: seq<char>,
                               maxConnection: nat, authMode: AuthMode, channel: int)

  /**
   * wifi_sta_init's configuration: the record's STA credentials, strlcpy'd
   * into zeroed fields, with WPA2-PSK as the weakest accepted network.
   */
  function StaConfigOf(ssid: seq<char>, pass: seq<char>): (c: StaConfig)
    requires IsCBuffer(ssid, SsidMaxLen) && IsCBuffer(pass, PassMaxLen)
    ensures |c.ssid| == ConfigSsidSize && |c.password| == ConfigPassSize
    ensures CStr(c.ssid) == CStr(ssid) && CStr(c.password) == CStr(pass)
    ensures c.threshold == AuthWpa2Psk
  {
    CStrOfCBufferIsShorter(ssid);
    CStrOfCBufferIsShorter(pass);
    StaConfig(Strlcpy(Zeros(ConfigSsidSize, Nul), ssid), Strlcpy(Zeros(ConfigPassSize, Nul), pass), AuthWpa2Psk)
  }

  /**
   * wifi_ap_init's configuration: the record's AP credentials, strlcpy'd;
   * ssid_len is strnlen of the record's SSID within 32 bytes; open
   * authentication exactly when the copied password is empty, WPA/WPA2-PSK
   * otherwise; four stations at most; the channel is an input, since the
   * record has no channel field.
   */
  function ApConfigOf(ssid: seq<char>, pass: seq<char>, channel: int): (c: ApConfig)
    requires IsCBuffer(ssid, SsidMaxLen) && IsCBuffer(pass, PassMaxLen)
    ensures |c.ssid| == ConfigSsidSize && |c.password| == ConfigPassSize
    ensures CStr(c.ssid) == CStr(ssid) && CStr(c.password) == CStr(pass)
    ensures c.ssidLen == |CStr(ssid)|
    ensures c.authMode == AuthOpen <==> CStr(pass) == []
    ensures c.authMode == AuthOpen || c.authMode == AuthWpaWpa2Psk
    ensures c.maxConnection == ApMaxConnections && c.channel == channel
  {
    CStrOfCBufferIsShorter(ssid);
    CStrOfCBufferIsShorter(pass);
    var ssidCopy := Strlcpy(Zeros(ConfigSsidSize, Nul), ssid);
    var password := Strlcpy(Zeros(ConfigPassSize, Nul), pass);
    var ssidLen := Strnlen(ssid, ConfigSsidSize);
    ApConfig(ssidCopy, ssidLen, password, ApMaxConnections,
             if |CStr(password)| == 0 then AuthOpen else AuthWpaWpa2Psk, channel)
  }

  /** The mode wifi_connect starts in: STA for startup mode STA, AP for every other value. */
  function BootMode(startupMode: int): (s: WifiState)
    ensures s != WifiNone
    ensures s == WifiSta <==> startupMode == StartupSta
  {
    if startupMode == StartupSta then WifiSta else WifiAp
  }

  /** The mode wifi_switch_task leaves behind. */
  function SwitchedMode(s: WifiState): (r: WifiState)
    ensures s == WifiNone <==> r == WifiNone
    ensures s != WifiNone ==> r != s
  {
    match s
    case WifiNone => WifiNone
    case WifiSta => WifiAp
    case WifiAp => WifiSta
  }

  /** Two switches restore the mode. */
  lemma SwitchTwice(s: WifiState)
    ensures SwitchedMode(SwitchedMode(s)) == s
  {
  }

  /**
   * What decides whether a switch request is honoured: the WiFi state,
   * wifi_switch_task_handle being set, whether a switch task exists, and how
   * many times the device has aborted and rebooted so far.
   */
  datatype SwitchGuard = SwitchGuard(wifiState: WifiState, handle: bool, taskRunning: bool, restarts: nat)

  /** The guard right after a boot, before wifi_connect chooses a mode. */
  function BootGuard(restarts: nat): SwitchGuard
  {
    SwitchGuard(WifiNone, false, false, restarts)
  }

  /** wifi_switch_mode: spawns the switch task only when no handle is recorded. */
  function RequestSwitch(g: SwitchGuard): (r: SwitchGuard)
    ensures r.wifiState == g.wifiState && r.handle && r.restarts == g.restarts
    ensures !g.handle ==> r.taskRunning
    ensures g.handle ==> r == g
  {
    if g.handle then g else g.(handle := true, taskRunning := true)
  }

  /**
   * The end of wifi_switch_task. Outside NONE it flips the mode, clears the
   * handle and deletes itself. From WIFI_STATE_NONE it returns from the task
   * function, which FreeRTOS treats as a fatal error: the device aborts and
   * reboots, so the statics start over (no handle, no task, state NONE).
   */
  function FinishSwitch(g: SwitchGuard): (r: SwitchGuard)
    requires g.taskRunning
    ensures !r.taskRunning && !r.handle && r.wifiState == SwitchedMode(g.wifiState)
    ensures r.restarts == if g.wifiState == WifiNone then g.restarts + 1 else g.restarts
  {
    if g.wifiState == WifiNone then BootGuard(g.restarts + 1)
    else SwitchGuard(SwitchedMode(g.wifiState), false, false, g.restarts)
  }

  /** The switch task with the early return replaced by clearing the handle and deleting the task. */
  function FinishSwitchIntended(g: SwitchGuard): (r: SwitchGuard)
    requires g.taskRunning
    ensures !r.taskRunning && !r.handle && r.wifiState == SwitchedMode(g.wifiState)
    ensures r.restarts == g.restarts
  {
    SwitchGuard(SwitchedMode(g.wifiState), false, false, g.restarts)
  }

  /** wifi_connect's effect on the guard: the boot mode is chosen only from NONE. */
  function ConnectGuard(g: SwitchGuard, startupMode: int): (r: SwitchGuard)
    ensures r.handle == g.handle && r.taskRunning == g.taskRunning && r.restarts == g.restarts
    ensures g.wifiState == WifiNone ==> r.wifiState == BootMode(startupMode)
    ensures g.wifiState != WifiNone ==> r == g
  {
    if g.wifiState == WifiNone then g.(wifiState := BootMode(startupMode)) else g
  }

  /** The operations that act on the guard: a long press, the switch task running, boot. */
  datatype GuardOp = Request | Finish | Connect(startupMode: int)

  /** One operation on the guard; a Finish with no switch task is a no-op. */
  function GuardStep(g: SwitchGuard, op: GuardOp, intended: bool): (r: SwitchGuard)
    ensures r.restarts >= g.restarts
    ensures intended ==> r.restarts == g.restarts
    ensures op != Finish ==> r.restarts == g.restarts
  {
    match op
    case Request => RequestSwitch(g)
    case Finish =>
      if !g.taskRunning then g
      else if intended then FinishSwitchIntended(g) else FinishSwitch(g)
    case Connect(mode) => ConnectGuard(g, mode)
  }

  /** The guard after a sequence of operations. */
  function RunGuard(g: SwitchGuard, ops: seq<GuardOp>, intended: bool): SwitchGuard
    decreases |ops|
  {
    if ops == [] then g else RunGuard(GuardStep(g, ops[0], intended), ops[1..], intended)
  }

  /** A long press before the mode is chosen makes the returning switch task abort and reboot the device. */
  lemma SwitchFromNoneRestarts(n: nat)
    ensures RunGuard(BootGuard(n), [Request, Finish], false) == BootGuard(n + 1)
    ensures RunGuard(BootGuard(n), [Request, Finish], true) == BootGuard(n)
  {
    var g := BootGuard(n);
    assert RunGuard(g, [Request, Finish], false)
        == RunGuard(FinishSwitch(RequestSwitch(g)), [], false);
    assert RunGuard(g, [Request, Finish], true)
        == RunGuard(FinishSwitchIntended(RequestSwitch(g)), [], true);
  }

  /** The handle is recorded exactly while a switch task exists. */
  predicate HandleTracksTask(g: SwitchGuard)
  {
    g.handle == g.taskRunning
  }

  /**
   * With the intended switch task the device never reboots, and the handle
   * tracks the task through any sequence of operations, so whenever no
   * switch is under way the next request spawns one.
   */
  lemma {:induction false} IntendedGuardTracksTask(g: SwitchGuard, ops: seq<GuardOp>)
    requires HandleTracksTask(g)
    ensures var r := RunGuard(g, ops, true);
            HandleTracksTask(r) && (!r.taskRunning ==> RequestSwitch(r).taskRunning)
            && r.restarts == g.restarts
    decreases |ops|
  {
    if ops != [] {
      IntendedGuardTracksTask(GuardStep(g, ops[0], true), ops[1..]);
    }
  }

  /**
   * As written the handle also tracks the task, because the only path that
   * leaves it set ends in a reboot; the price is the reboot, counted here.
   */
  lemma {:induction false} AsWrittenGuardTracksTask(g: SwitchGuard, ops: seq<GuardOp>)
    requires HandleTracksTask(g)
    ensures var r := RunGuard(g, ops, false);
            HandleTracksTask(r) && r.restarts >= g.restarts
    decreases |ops|
  {
    if ops != [] {
      AsWrittenGuardTracksTask(GuardStep(g, ops[0], false), ops[1..]);
    }
  }

  /** As written, a switch task started outside NONE never reboots the device. */
  lemma FinishOutsideNoneKeepsRunning(g: SwitchGuard)
    requires HandleTracksTask(g) && g.taskRunning && g.wifiState != WifiNone
    ensures FinishSwitch(g) == FinishSwitchIntended(g)
    ensures HandleTracksTask(FinishSwitch(g)) && FinishSwitch(g).restarts == g.restarts
  {
  }

  /** A WiFi or IP event that reaches event_handler. */
  datatype WifiEvent =
    | StaStart
    | StaStop
    | StaDisconnected(reason: Byte)
    | ApStaConnected
    | ApStaDisconnected
    | ApStart
    | ApStop
    | OtherWifiEvent          // a WIFI_EVENT id the switch has no case for
    | StaGotIp(ip: seq<Byte>) // IP_EVENT_STA_GOT_IP with its address, in memory order

  predicate ValidEvent(ev: WifiEvent)
  {
    ev.StaGotIp? ==> |ev.ip| == 4
  }

  /**
   * The record after event_handler. A disconnect copies the one-byte reason
   * into wifi_sta_connection_state, and its "clear IP" copies 0 bytes. GOT_IP
   * copies the four address bytes, and its "reset state" copies 0 bytes.
   */
  function AfterEvent(rec: Record, ev: WifiEvent): (r: Record)
    requires rec.Valid() && ValidEvent(ev)
    ensures r.Valid()
    ensures r == rec.(staConnState := r.staConnState, currentIp := r.currentIp)
    ensures ev.StaDisconnected? ==> r.staConnState == ev.reason && r.currentIp == rec.currentIp
    ensures ev.StaGotIp? ==> r.currentIp == ev.ip && r.staConnState == rec.staConnState
    ensures !ev.StaDisconnected? && !ev.StaGotIp? ==> r == rec
  {
    match ev
    case StaDisconnected(reason) =>
      rec.(staConnState := SystemStateSet([rec.staConnState], [reason], 1)[0],
           currentIp := SystemStateSet(rec.currentIp, [], 0))
    case StaGotIp(ip) =>
      rec.(currentIp := SystemStateSet(rec.currentIp, ip, 4),
           staConnState := SystemStateSet([rec.staConnState], [], 0)[0])
    case _ => rec
  }

  /** The handler as its comments describe it: the IP cleared, the reason reset. */
  function AfterEventIntended(rec: Record, ev: WifiEvent): (r: Record)
    requires rec.Valid() && ValidEvent(ev)
    ensures r.Valid()
    ensures r == rec.(staConnState := r.staConnState, currentIp := r.currentIp)
    ensures ev.StaDisconnected? ==> r.staConnState == ev.reason && r.currentIp == NoAddress
    ensures ev.StaGotIp? ==> r.currentIp == ev.ip && r.staConnState == 0
    ensures !ev.StaDisconnected? && !ev.StaGotIp? ==> r == rec
  {
    match ev
    case StaDisconnected(reason) =>
      rec.(staConnState := SystemStateSet([rec.staConnState], [reason], 1)[0],
           currentIp := SystemStateSet(rec.currentIp, NoAddress, 4))
    case StaGotIp(ip) =>
      rec.(currentIp := SystemStateSet(rec.currentIp, ip, 4),
           staConnState := SystemStateSet([rec.staConnState], [0], 1)[0])
    case _ => rec
  }

  /**
   * As written, a disconnect leaves the old address in the record, and a
   * reconnect leaves the disconnect reason in place, so the status LED's
   * answer to the WIFI_STATE_CHANGED that follows GOT_IP is ERROR.
   */
  lemma ReconnectKeepsReason(rec: Record, reason: Byte, ip: seq<Byte>, led: int)
    requires rec.Valid() && reason != 0 && |ip| == 4 && 0 <= led < StatusLed.LedMaxStates
    ensures var down := AfterEvent(rec, StaDisconnected(reason));
            var up := AfterEvent(down, StaGotIp(ip));
            down.currentIp == rec.currentIp
            && up.staConnState == reason
            && StatusLed.NextState(led, WifiStateChanged, up.staConnState) == StatusLed.LedError
  {
  }

  /**
   * With the intended handler a disconnect leaves 0.0.0.0 and a reconnect
   * turns the status LED back to OK.
   */
  lemma IntendedReconnectShowsOk(rec: Record, reason: Byte, ip: seq<Byte>, led: int)
    requires rec.Valid() && |ip| == 4 && 0 <= led < StatusLed.LedMaxStates
    ensures var down := AfterEventIntended(rec, StaDisconnected(reason));
            var up := AfterEventIntended(down, StaGotIp(ip));
            down.currentIp == NoAddress
            && up.currentIp == ip
            && StatusLed.NextState(led, WifiStateChanged, up.staConnState) == StatusLed.LedOk
  {
  }

  /**
   * event_handler: the record update, then WIFI_STATE_CHANGED, posted for
   * every event that reaches the handler.
   */
  method EventHandler(st: SystemState, events: EventLog, ev: WifiEvent)
    requires st.Valid() && ValidEvent(ev)
    modifies st, events
    ensures st.Valid()
    ensures st.Snapshot() == AfterEvent(old(st.Snapshot()), ev)
    ensures events.loopCreated == old(events.loopCreated)
    ensures events.posted == old(events.posted) + if events.loopCreated then [WifiStateChanged] else []
  {
    match ev {
      case StaDisconnected(reason) =>
        st.staConnState := SystemStateSet([st.staConnState], [reason], 1)[0];
        st.currentIp := SystemStateSet(st.currentIp, [], 0);
      case StaGotIp(ip) =>
        st.currentIp := SystemStateSet(st.currentIp, ip, 4);
        st.staConnState := SystemStateSet([st.staConnState], [], 0)[0];
      case _ =>
        // STA_START asks the driver to connect; the other events only log
    }
    events.Post(WifiStateChanged);
  }

  /** The statics of wifi_manager.c: the two default netifs and the switch task handle. */
  class WifiController {
    var apNetif: bool
    var staNetif: bool
    var switchTaskHandle: bool
    /** Whether the FreeRTOS task spawned by wifi_switch_mode exists. */
    var switchTaskRunning: bool
    /** How many times the device has aborted and rebooted. */
    var restarts: nat

    constructor()
      ensures !apNetif && !staNetif && !switchTaskHandle && !switchTaskRunning && restarts == 0
    {
      apNetif, staNetif, switchTaskHandle, switchTaskRunning := false, false, false, false;
      restarts := 0;
    }

    function Guard(st: SystemState): SwitchGuard
      reads this, st
    {
      SwitchGuard(st.wifiState, switchTaskHandle, switchTaskRunning, restarts)
    }

    /**
     * wifi_sta_init: creates the STA netif unless one exists, returning
     * early when that fails; then hands the configuration to the driver.
     */
    method StaInit(st: SystemState, netifCreated: bool) returns (config: Option<StaConfig>)
      requires st.Valid()
      modifies this
      ensures staNetif == (old(staNetif) || netifCreated)
      ensures apNetif == old(apNetif) && switchTaskHandle == old(switchTaskHandle) && restarts == old(restarts)
      ensures switchTaskRunning == old(switchTaskRunning)
      ensures config == if staNetif then Some(StaConfigOf(st.staSsid, st.staPass)) else None
    {
      if !staNetif {
        if !netifCreated {
          return None;
        }
        staNetif := true;
      }
      config := Some(StaConfigOf(st.staSsid, st.staPass));
    }

    /**
     * wifi_ap_init: creates the AP netif unless one exists, returning early
     * when that fails; records 192.168.4.1 as the current IP and hands the
     * configuration to the driver.
     */
    method ApInit(st: SystemState, netifCreated: bool, channel: int) returns (config: Option<ApConfig>)
      requires st.Valid()
      modifies this, st
      ensures st.Valid()
      ensures apNetif == (old(apNetif) || netifCreated)
      ensures staNetif == old(staNetif) && switchTaskHandle == old(switchTaskHandle) && restarts == old(restarts)
      ensures switchTaskRunning == old(switchTaskRunning)
      ensures st.Snapshot() == if apNetif then old(st.Snapshot()).(currentIp := ApAddress) else old(st.Snapshot())
      ensures config == if apNetif then Some(ApConfigOf(old(st.apSsid), old(st.apPass), channel)) else None
    {
      if !apNetif {
        if !netifCreated {
          return None;
        }
        apNetif := true;
      }
      st.currentIp := SystemStateSet(st.currentIp, ApAddress, 4);
      assert st.currentIp == ApAddress;
      config := Some(ApConfigOf(st.apSsid, st.apPass, channel));
    }

    /**
     * wifi_connect: from WIFI_STATE_NONE, starts the mode the startup mode
     * selects (STA for STA, AP for anything else) and posts
     * WIFI_STATE_CHANGED; in any other state it does nothing.
     */
    method Connect(st: SystemState, events: EventLog, netifCreated: bool, channel: int)
      returns (staConfig: Option<StaConfig>, apConfig: Option<ApConfig>)
      requires st.Valid()
      modifies this, st, events
      ensures st.Valid()
      ensures Guard(st) == ConnectGuard(old(Guard(st)), old(st.startupMode))
      ensures events.loopCreated == old(events.loopCreated)
      ensures old(st.wifiState) != WifiNone ==>
                st.Snapshot() == old(st.Snapshot()) && events.posted == old(events.posted)
                && apNetif == old(apNetif) && staNetif == old(staNetif)
                && staConfig.None? && apConfig.None?
      ensures old(st.wifiState) == WifiNone ==>
                events.posted == old(events.posted) + if events.loopCreated then [WifiStateChanged] else []
      ensures old(st.wifiState) == WifiNone && old(st.startupMode) == StartupSta ==>
                st.Snapshot() == old(st.Snapshot()).(wifiState := WifiSta)
                && staNetif == (old(staNetif) || netifCreated) && apNetif == old(apNetif)
                && staConfig == (if staNetif then Some(StaConfigOf(old(st.staSsid), old(st.staPass))) else None)
                && apConfig.None?
      ensures old(st.wifiState) == WifiNone && old(st.startupMode) != StartupSta ==>
                st.Snapshot() == old(st.Snapshot()).(wifiState := WifiAp,
                                                     currentIp := if apNetif then ApAddress else old(st.currentIp))
                && apNetif == (old(apNetif) || netifCreated) && staNetif == old(staNetif)
                && apConfig == (if apNetif then Some(ApConfigOf(old(st.apSsid), old(st.apPass), channel)) else None)
                && staConfig.None?
    {
      staConfig, apConfig := None, None;
      if st.wifiState == WifiNone {
        if st.startupMode == StartupSta {
          staConfig := StaInit(st, netifCreated);
          st.wifiState := WifiSta;
        } else {
          apConfig := ApInit(st, netifCreated, channel);
          st.wifiState := WifiAp;
        }
        events.Post(WifiStateChanged);
      }
    }

    /** wifi_switch_mode: spawns the switch task only when no handle is recorded. */
    method SwitchMode(st: SystemState)
      modifies this
      ensures Guard(st) == RequestSwitch(old(Guard(st)))
      ensures apNetif == old(apNetif) && staNetif == old(staNetif)
    {
      if !switchTaskHandle {
        switchTaskHandle, switchTaskRunning := true, true;
      }
    }

    /**
     * wifi_switch_task, run by the spawned task: from NONE it returns from
     * the task function, so the device aborts and reboots and the statics
     * start over; otherwise it tears both netifs down, starts the other mode,
     * posts WIFI_STATE_CHANGED and clears the handle.
     */
    method SwitchTask(st: SystemState, events: EventLog, netifCreated: bool, channel: int)
      returns (staConfig: Option<StaConfig>, apConfig: Option<ApConfig>)
      requires st.Valid() && switchTaskRunning
      modifies this, st, events
      ensures st.Valid()
      ensures Guard(st) == FinishSwitch(old(Guard(st)))
      ensures events.loopCreated == old(events.loopCreated)
      ensures old(st.wifiState) == WifiNone ==>
                st.Snapshot() == old(st.Snapshot()) && events.posted == old(events.posted)
                && !apNetif && !staNetif
                && staConfig.None? && apConfig.None?
      ensures old(st.wifiState) != WifiNone ==>
                events.posted == old(events.posted) + if events.loopCreated then [WifiStateChanged] else []
      ensures old(st.wifiState) == WifiSta ==>
                st.Snapshot() == old(st.Snapshot()).(wifiState := WifiAp,
                                                     currentIp := if netifCreated then ApAddress else old(st.currentIp))
                && apNetif == netifCreated && !staNetif
                && apConfig == (if netifCreated then Some(ApConfigOf(old(st.apSsid), old(st.apPass), channel)) else None)
                && staConfig.None?
      ensures old(st.wifiState) == WifiAp ==>
                st.Snapshot() == old(st.Snapshot()).(wifiState := WifiSta)
                && staNetif == netifCreated && !apNetif
                && staConfig == (if netifCreated then Some(StaConfigOf(old(st.staSsid), old(st.staPass))) else None)
                && apConfig.None?
    {
      staConfig, apConfig := None, None;
      if st.wifiState == WifiNone {
        // the task function returns: abort, reboot, statics back to NULL
        apNetif, staNetif := false, false;
        switchTaskHandle, switchTaskRunning := false, false;
        restarts := restarts + 1;
        return;
      }
      staConfig, apConfig := SwitchToOtherMode(st, events, netifCreated, channel);
      switchTaskHandle := false;
      switchTaskRunning := false;
    }

    /**
     * The body of wifi_switch_task outside NONE: both netifs destroyed, the
     * other mode started, WIFI_STATE_CHANGED posted.
     */
    method SwitchToOtherMode(st: SystemState, events: EventLog, netifCreated: bool, channel: int)
      returns (staConfig: Option<StaConfig>, apConfig: Option<ApConfig>)
      requires st.Valid() && st.wifiState != WifiNone
      modifies this, st, events
      ensures st.Valid()
      ensures switchTaskHandle == old(switchTaskHandle) && switchTaskRunning == old(switchTaskRunning)
      ensures restarts == old(restarts)
      ensures events.loopCreated == old(events.loopCreated)
      ensures events.posted == old(events.posted) + if events.loopCreated then [WifiStateChanged] else []
      ensures old(st.wifiState) == WifiSta ==>
                st.Snapshot() == old(st.Snapshot()).(wifiState := WifiAp,
                                                     currentIp := if netifCreated then ApAddress else old(st.currentIp))
                && apNetif == netifCreated && !staNetif
                && apConfig == (if netifCreated then Some(ApConfigOf(old(st.apSsid), old(st.apPass), channel)) else None)
                && staConfig.None?
      ensures old(st.wifiState) == WifiAp ==>
                st.Snapshot() == old(st.Snapshot()).(wifiState := WifiSta)
                && staNetif == netifCreated && !apNetif
                && staConfig == (if netifCreated then Some(StaConfigOf(old(st.staSsid), old(st.staPass))) else None)
                && apConfig.None?
    {
      staConfig, apConfig := None, None;
      apNetif := false;
      staNetif := false;
      if st.wifiState == WifiSta {
        apConfig := ApInit(st, netifCreated, channel);
        st.wifiState := WifiAp;
      } else {
        staConfig := StaInit(st, netifCreated);
        st.wifiState := WifiSta;
      }
      events.Post(WifiStateChanged);
    }
  }
}
