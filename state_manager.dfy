/**
 * The shared device record of main/state_manager.c and the rules that fill
 * it from NVS at boot, write it back, and copy single fields in and out.
 */
module StateManager {
  import opened Esp
  import opened NvsManager
  import opened FatfsManager
  import PrototypeFunctions

  const SsidMaxLen: nat := 32
  const PassMaxLen: nat := 64

  const ApSsidKey := "as"
  const ApPassKey := "ap"
  const StaSsidKey := "ss"
  const StaPassKey := "sp"
  const SensorMaskKey := "sm"
  const StartupModeKey := "wm"

  /** The keys store_running_config writes, in the order it writes them. */
  const StoreOrder := [ApSsidKey, StaSsidKey, ApPassKey, StaPassKey, SensorMaskKey, StartupModeKey]

  /** wifi_mode_enum. */
  const StartupNone := 0
  const StartupSta := 1
  const StartupAp := 2

  /** 0b00111111: all six sensors of the six-channel board. */
  const DefaultSensorMask := 0x3F

  const ConfigFilePath := "/spiflash/esp.conf"

  /** wifi_state_t. */
  datatype WifiState = WifiNone | WifiSta | WifiAp

  /** system_state_t, with the four strings as their fixed-width char buffers. */
  datatype Record = Record(
    staConnState: Byte,       // a wifi_err_reason_t
    apConnState: Byte,
    currentIp: seq<Byte>,     // esp_ip4_addr_t, in memory order
    wifiState: WifiState,
    apSsid: seq<char>,
    apPass: seq<char>,
    staSsid: seq<char>,
    staPass: seq<char>,
    sensorMask: int,          // int8_t
    startupMode: int)         // wifi_mode_enum
  {
    /** Field widths of the C struct; every string buffer holds a NUL. */
    predicate Valid()
    {
      && |currentIp| == 4
      && IsCBuffer(apSsid, SsidMaxLen) && IsCBuffer(apPass, PassMaxLen)
      && IsCBuffer(staSsid, SsidMaxLen) && IsCBuffer(staPass, PassMaxLen)
      && -128 <= sensorMask < 128
      && IsInt32(startupMode)
    }
  }

  function Zeros<T>(n: nat, zero: T): (r: seq<T>)
    ensures |r| == n && forall i :: 0 <= i < n ==> r[i] == zero
  {
    seq(n, _ => zero)
  }

  /** The all-zero record: the static initialiser and the memset of system_initialize. */
  function ZeroRecord(): (r: Record)
    ensures r.Valid()
    ensures CStr(r.apSsid) == [] && CStr(r.apPass) == [] && CStr(r.staSsid) == [] && CStr(r.staPass) == []
  {
    var ssid := Zeros(SsidMaxLen, Nul);
    var pass := Zeros(PassMaxLen, Nul);
    assert ssid[0] == Nul && pass[0] == Nul;
    Record(0, 0, Zeros(4, 0), WifiNone, ssid, pass, ssid, pass, 0, StartupNone)
  }

  /** The CONFIG_DEFAULT_* strings of the build configuration. */
  datatype Defaults = Defaults(apSsid: string, apPass: string, staSsid: string, staPass: string)

  /** Whether each of the two heap buffers of read_running_config could be allocated. */
  datatype Allocation = Allocation(ssidBuffer: bool, passBuffer: bool)

  /**
   * system_state_set(field, value, size): memcpy of size bytes; the bytes
   * after them keep their old values.
   */
  function SystemStateSet<T>(field: seq<T>, value: seq<T>, size: nat): (r: seq<T>)
    requires size <= |field| && size <= |value|
    ensures |r| == |field|
    ensures forall i :: 0 <= i < size ==> r[i] == value[i]
    ensures forall i :: size <= i < |field| ==> r[i] == field[i]
  {
    value[..size] + field[size..]
  }

  /** system_state_get(field, output, size): the same copy in the other direction. */
  function SystemStateGet<T>(field: seq<T>, output: seq<T>, size: nat): (r: seq<T>)
    requires size <= |field| && size <= |output|
    ensures |r| == |output|
    ensures forall i :: 0 <= i < size ==> r[i] == field[i]
    ensures forall i :: size <= i < |output| ==> r[i] == output[i]
  {
    SystemStateSet(output, field, size)
  }

  /** A copy of size 0 changes nothing, whatever the source. */
  lemma ZeroSizeCopyIsNoOp<T>(field: seq<T>, value: seq<T>)
    ensures SystemStateSet(field, value, 0) == field
    ensures SystemStateGet(value, field, 0) == field
  {
    assert SystemStateSet(field, value, 0) == field;
  }

  /** Reading a whole field back after setting it yields the value that was set. */
  lemma SetThenGet<T>(field: seq<T>, value: seq<T>, output: seq<T>)
    requires |value| == |field| == |output|
    ensures SystemStateGet(SystemStateSet(field, value, |field|), output, |field|) == value
  {
  }

  /**
   * How read_running_config resolves one string field from what read_string
   * found: a non-empty value is copied with strlcpy; an empty value, a
   * dropped copy (the zeroed buffer reads as empty) or ESP_ERR_NVS_NOT_FOUND
   * give the default; any other error leaves the field as it was.
   */
  function ResolveString(field: seq<char>, read: StrRead, default: string): (r: seq<char>)
    requires |field| > 0
    ensures |r| == |field| && (Nul in field ==> Nul in r)
    ensures read.Found? && read.s != [] && |read.s| < |field| && Nul !in read.s ==> CStr(r) == read.s
    ensures (read.Found? && read.s == []) || read.Dropped? || read == Failed(NvsNotFound) ==>
              CStr(r) == CStr(default)[..Min(|CStr(default)|, |field| - 1)]
    ensures read.Failed? && read.err != NvsNotFound ==> r == field
  {
    match read
    case Found(s) =>
      if s == [] then Strlcpy(field, default)
      else
        CStrOfPlain(s);
        Strlcpy(field, s)
    case Dropped => Strlcpy(field, default)
    case Failed(e) => if e == NvsNotFound then Strlcpy(field, default) else field
  }

  /**
   * The two integer reads of read_running_config, as written: read_int
   * answers ESP_OK whenever the namespace opens, and its out-parameter
   * buffer_int is shared, so a missing "sm" gives 0 and a missing "wm"
   * inherits the sensor-mask value. The startup mode is then validated.
   */
  function ResolveInts(mask: int, mode: int, v: NvsView): (r: (int, int))
    requires -128 <= mask < 128
    ensures -128 <= r.0 < 128
    ensures r.1 == StartupSta || r.1 == StartupAp
    ensures OpenReadOnly(v) == NvsNotFound ==> r == (DefaultSensorMask, StartupAp)
    ensures OpenReadOnly(v) == NvsNotInitialized ==> r.0 == mask
  {
    var (e1, b1) := LookupInt(v, SensorMaskKey, 0);
    var m := if e1 == EspOk then Int8Of(b1) else if e1 == NvsNotFound then DefaultSensorMask else mask;
    var (e2, b2) := LookupInt(v, StartupModeKey, b1);
    var w := if e2 == EspOk then b2 else if e2 == NvsNotFound then StartupAp else mode;
    (m, if w != StartupSta && w != StartupAp then StartupAp else w)
  }

  /**
   * read_running_config as a function of the record and the NVS partition:
   * the two SSIDs, then (if the second buffer could be allocated) the two
   * passwords and the two integers. Nothing is written back to NVS.
   */
  function ReadConfig(prev: Record, v: NvsView, d: Defaults, alloc: Allocation): (r: Record)
    requires prev.Valid() && v.Valid()
    ensures r.Valid()
    ensures r.staConnState == prev.staConnState && r.apConnState == prev.apConnState
    ensures r.currentIp == prev.currentIp && r.wifiState == prev.wifiState
    ensures !alloc.ssidBuffer ==> r == prev
    ensures alloc.ssidBuffer && alloc.passBuffer ==> r.startupMode == StartupSta || r.startupMode == StartupAp
  {
    if !alloc.ssidBuffer then prev
    else if !alloc.passBuffer then ReadSsids(prev, v, d)
    else ReadRest(ReadSsids(prev, v, d), v, d)
  }

  /** The two SSID reads, through the SSID_MAX_LEN buffer. */
  function ReadSsids(prev: Record, v: NvsView, d: Defaults): (r: Record)
    requires prev.Valid() && v.Valid()
    ensures r.Valid()
  {
    prev.(apSsid := ResolveString(prev.apSsid, LookupString(v, ApSsidKey, SsidMaxLen), d.apSsid),
          staSsid := ResolveString(prev.staSsid, LookupString(v, StaSsidKey, SsidMaxLen), d.staSsid))
  }

  /** The two password reads, through the PASS_MAX_LEN buffer, then the two integers. */
  function ReadRest(prev: Record, v: NvsView, d: Defaults): (r: Record)
    requires prev.Valid() && v.Valid()
    ensures r.Valid() && (r.startupMode == StartupSta || r.startupMode == StartupAp)
  {
    var ints := ResolveInts(prev.sensorMask, prev.startupMode, v);
    prev.(apPass := ResolveString(prev.apPass, LookupString(v, ApPassKey, PassMaxLen), d.apPass),
          staPass := ResolveString(prev.staPass, LookupString(v, StaPassKey, PassMaxLen), d.staPass),
          sensorMask := ints.0, startupMode := ints.1)
  }

  /** The four string stores of store_running_config: the C strings of the record's fields. */
  function StoreStrings(v: NvsView, rec: Record): (r: NvsView)
    ensures v.Valid() ==> r.Valid()
    ensures !v.initialized ==> r == v
    ensures r.initialized == v.initialized && r.getErr == v.getErr && r.readErr == v.readErr && r.setErr == v.setErr
  {
    StoreFour(v, CStr(rec.apSsid), CStr(rec.staSsid), CStr(rec.apPass), CStr(rec.staPass))
  }

  /** Four string stores in STORE order; without faults each value lands under its own key. */
  function StoreFour(v: NvsView, apSsid: string, staSsid: string, apPass: string, staPass: string): (r: NvsView)
    ensures v.Valid() && Nul !in apSsid && Nul !in staSsid && Nul !in apPass && Nul !in staPass ==> r.Valid()
    ensures !v.initialized ==> r == v
    ensures r.initialized == v.initialized && r.getErr == v.getErr && r.readErr == v.readErr && r.setErr == v.setErr
    ensures v.initialized ==> r.namespaceExists
    ensures v.initialized && NoFaults(v) ==>
              && ApSsidKey in r.strings && r.strings[ApSsidKey] == apSsid
              && StaSsidKey in r.strings && r.strings[StaSsidKey] == staSsid
              && ApPassKey in r.strings && r.strings[ApPassKey] == apPass
              && StaPassKey in r.strings && r.strings[StaPassKey] == staPass
  {
    var v1 := StoreStringView(v, ApSsidKey, apSsid).1;
    var v2 := StoreStringView(v1, StaSsidKey, staSsid).1;
    var v3 := StoreStringView(v2, ApPassKey, apPass).1;
    var r := StoreStringView(v3, StaPassKey, staPass).1;
    if v.initialized && NoFaults(v) then
      KeysDistinct();
      assert StoreOrder[0] == ApSsidKey && StoreOrder[1] == StaSsidKey;
      assert StoreOrder[2] == ApPassKey && StoreOrder[3] == StaPassKey;
      assert v2.strings[ApSsidKey] == apSsid;
      assert v3.strings[ApSsidKey] == apSsid && v3.strings[StaSsidKey] == staSsid;
      r
    else r
  }

  /** store_running_config as a function of the partition: six stores, every result ignored. */
  function StoreConfig(v: NvsView, rec: Record): (r: NvsView)
    ensures v.Valid() && rec.Valid() ==> r.Valid()
    ensures !v.initialized ==> r == v
    ensures r.initialized == v.initialized && r.getErr == v.getErr && r.readErr == v.readErr && r.setErr == v.setErr
  {
    var v4 := StoreStrings(v, rec);
    var v5 := StoreIntView(v4, SensorMaskKey, rec.sensorMask).1;
    StoreIntView(v5, StartupModeKey, rec.startupMode).1
  }

  /** None of the configuration keys fails to read or to write. */
  predicate NoFaults(v: NvsView)
  {
    forall k :: k in StoreOrder ==> k !in v.getErr && k !in v.readErr && k !in v.setErr
  }

  /** What a string field holds after a store and a reload: itself, or the default when it was empty. */
  function Reloaded(stored: string, default: string, width: nat): string
    requires width > 0
  {
    if stored == [] then CStr(default)[..Min(|CStr(default)|, width - 1)] else stored
  }

  lemma CStrOfCBufferIsShorter(s: seq<char>)
    requires Nul in s
    ensures |CStr(s)| < |s|
  {
  }

  /**
   * Store then reload: on an initialised partition without faults, every
   * field comes back as stored (an empty string as its default), the sensor
   * mask exactly, and the startup mode when it is STA or AP (AP otherwise).
   */
  lemma StoreThenRead(v: NvsView, rec: Record, prev: Record, d: Defaults)
    requires v.Valid() && v.initialized && NoFaults(v)
    requires rec.Valid() && prev.Valid()
    ensures StoreConfig(v, rec).Valid()
    ensures var r := ReadConfig(prev, StoreConfig(v, rec), d, Allocation(true, true));
            && CStr(r.apSsid) == Reloaded(CStr(rec.apSsid), d.apSsid, SsidMaxLen)
            && CStr(r.staSsid) == Reloaded(CStr(rec.staSsid), d.staSsid, SsidMaxLen)
            && CStr(r.apPass) == Reloaded(CStr(rec.apPass), d.apPass, PassMaxLen)
            && CStr(r.staPass) == Reloaded(CStr(rec.staPass), d.staPass, PassMaxLen)
            && r.sensorMask == rec.sensorMask
            && r.startupMode == (if rec.startupMode == StartupSta || rec.startupMode == StartupAp then rec.startupMode else StartupAp)
  {
    var w := StoreConfig(v, rec);
    StoreHolds(v, rec);
    ReadBackStrings(w, rec, prev, d);
    ReadBackInts(w, rec, prev, d);
  }

  /** After store_running_config without faults, the partition holds the record. */
  lemma StoreHolds(v: NvsView, rec: Record)
    requires v.Valid() && v.initialized && NoFaults(v)
    requires rec.Valid()
    ensures Holds(StoreConfig(v, rec), rec)
  {
    IntsStored(StoreStrings(v, rec), rec.sensorMask, rec.startupMode);
  }

  /** The two int stores of store_running_config, without faults: each value lands under its own key. */
  lemma IntsStored(v: NvsView, mask: int, mode: int)
    requires v.initialized && NoFaults(v)
    ensures var w := StoreIntView(StoreIntView(v, SensorMaskKey, mask).1, StartupModeKey, mode).1;
            && w.strings == v.strings && w.namespaceExists
            && SensorMaskKey in w.ints && w.ints[SensorMaskKey] == mask
            && StartupModeKey in w.ints && w.ints[StartupModeKey] == mode
  {
    assert StoreOrder[4] == SensorMaskKey && StoreOrder[5] == StartupModeKey;
    assert SensorMaskKey[0] != StartupModeKey[0];
  }

  /** A partition holding a record's values under its keys, readable without faults. */
  predicate Holds(w: NvsView, rec: Record)
  {
    && w.Valid() && OpenReadOnly(w) == EspOk && NoFaults(w)
    && ApSsidKey in w.strings && w.strings[ApSsidKey] == CStr(rec.apSsid)
    && StaSsidKey in w.strings && w.strings[StaSsidKey] == CStr(rec.staSsid)
    && ApPassKey in w.strings && w.strings[ApPassKey] == CStr(rec.apPass)
    && StaPassKey in w.strings && w.strings[StaPassKey] == CStr(rec.staPass)
    && SensorMaskKey in w.ints && w.ints[SensorMaskKey] == rec.sensorMask
    && StartupModeKey in w.ints && w.ints[StartupModeKey] == rec.startupMode
  }

  /** The string reads of read_running_config on a partition that holds a record. */
  lemma ReadBackStrings(w: NvsView, rec: Record, prev: Record, d: Defaults)
    requires Holds(w, rec) && rec.Valid() && prev.Valid()
    ensures var r := ReadConfig(prev, w, d, Allocation(true, true));
            && CStr(r.apSsid) == Reloaded(CStr(rec.apSsid), d.apSsid, SsidMaxLen)
            && CStr(r.staSsid) == Reloaded(CStr(rec.staSsid), d.staSsid, SsidMaxLen)
            && CStr(r.apPass) == Reloaded(CStr(rec.apPass), d.apPass, PassMaxLen)
            && CStr(r.staPass) == Reloaded(CStr(rec.staPass), d.staPass, PassMaxLen)
  {
    assert StoreOrder[0] == ApSsidKey && StoreOrder[1] == StaSsidKey;
    assert StoreOrder[2] == ApPassKey && StoreOrder[3] == StaPassKey;
    ReloadRecordField(w, ApSsidKey, rec.apSsid, prev.apSsid, d.apSsid);
    ReloadRecordField(w, StaSsidKey, rec.staSsid, prev.staSsid, d.staSsid);
    ReloadRecordField(w, ApPassKey, rec.apPass, prev.apPass, d.apPass);
    ReloadRecordField(w, StaPassKey, rec.staPass, prev.staPass, d.staPass);
  }

  /** The integer reads of read_running_config on a partition that holds a record. */
  lemma ReadBackInts(w: NvsView, rec: Record, prev: Record, d: Defaults)
    requires Holds(w, rec) && rec.Valid() && prev.Valid()
    ensures var r := ReadConfig(prev, w, d, Allocation(true, true));
            && r.sensorMask == rec.sensorMask
            && r.startupMode == (if rec.startupMode == StartupSta || rec.startupMode == StartupAp then rec.startupMode else StartupAp)
  {
    assert StoreOrder[4] == SensorMaskKey && StoreOrder[5] == StartupModeKey;
  }

  lemma KeysDistinct()
    ensures ApSsidKey != StaSsidKey && ApSsidKey != ApPassKey && ApSsidKey != StaPassKey
    ensures StaSsidKey != ApPassKey && StaSsidKey != StaPassKey && ApPassKey != StaPassKey
  {
    assert ApSsidKey[0] != StaSsidKey[0] && ApSsidKey[1] != ApPassKey[1] && ApSsidKey[0] != StaPassKey[0];
    assert StaSsidKey[0] != ApPassKey[0] && StaSsidKey[1] != StaPassKey[1] && ApPassKey[0] != StaPassKey[0];
  }

  /** One record field read back from a partition that holds its C string under key. */
  lemma ReloadRecordField(w: NvsView, key: string, buf: seq<char>, field: seq<char>, default: string)
    requires w.Valid() && OpenReadOnly(w) == EspOk && key !in w.getErr && key !in w.readErr
    requires key in w.strings && w.strings[key] == CStr(buf)
    requires Nul in buf && Nul in field && |buf| == |field|
    ensures CStr(ResolveString(field, LookupString(w, key, |field|), default)) == Reloaded(CStr(buf), default, |field|)
  {
    CStrOfCBufferIsShorter(buf);
    CStrOfPlain(CStr(buf));
    ReloadField(w, key, CStr(buf), field, default);
  }

  /** One string field read back from a partition that holds stored for its key. */
  lemma ReloadField(w: NvsView, key: string, stored: string, field: seq<char>, default: string)
    requires w.Valid() && OpenReadOnly(w) == EspOk && key !in w.getErr && key !in w.readErr
    requires key in w.strings && w.strings[key] == stored
    requires stored == CStr(stored) && Nul in field && |stored| < |field|
    ensures CStr(ResolveString(field, LookupString(w, key, |field|), default)) == Reloaded(stored, default, |field|)
  {
  }

  /**
   * A stored SSID of 32 or more characters does not fit the 32-byte buffer:
   * read_string rejects it and the record keeps its previous SSID.
   */
  lemma LongSsidKeepsField(v: NvsView, prev: Record, d: Defaults, alloc: Allocation)
    requires v.Valid() && prev.Valid() && alloc.ssidBuffer
    requires OpenReadOnly(v) == EspOk && ApSsidKey !in v.getErr
    requires ApSsidKey in v.strings && |v.strings[ApSsidKey]| >= SsidMaxLen
    ensures ReadConfig(prev, v, d, alloc).apSsid == prev.apSsid
  {
  }

  /**
   * Before nvs_flash_init (the first read of system_initialize) nothing can
   * be read: the record keeps its values except the startup mode, which
   * validation turns into AP.
   */
  lemma ReadBeforeInit(prev: Record, v: NvsView, d: Defaults)
    requires prev.Valid() && v.Valid() && !v.initialized
    ensures ReadConfig(prev, v, d, Allocation(true, true)) ==
              prev.(startupMode := if prev.startupMode == StartupSta || prev.startupMode == StartupAp then prev.startupMode else StartupAp)
  {
  }

  /** On a fresh device (no namespace yet) every field takes its default. */
  lemma FreshDeviceDefaults(prev: Record, v: NvsView, d: Defaults)
    requires prev.Valid() && v.Valid() && v.initialized && !v.namespaceExists
    ensures var r := ReadConfig(prev, v, d, Allocation(true, true));
            && CStr(r.apSsid) == Reloaded([], d.apSsid, SsidMaxLen)
            && CStr(r.apPass) == Reloaded([], d.apPass, PassMaxLen)
            && CStr(r.staSsid) == Reloaded([], d.staSsid, SsidMaxLen)
            && CStr(r.staPass) == Reloaded([], d.staPass, PassMaxLen)
            && r.sensorMask == DefaultSensorMask && r.startupMode == StartupAp
  {
  }

  /**
   * As written, a namespace that exists without an "sm" key gives sensor
   * mask 0 (all sensors off), not the default 0x3F, and a missing "wm"
   * takes the stored sensor mask as startup mode.
   */
  lemma MissingIntsAsWritten(v: NvsView, mask: int, mode: int)
    requires v.Valid() && v.initialized && v.namespaceExists && -128 <= mask < 128
    requires SensorMaskKey !in v.ints && StartupModeKey !in v.ints
    ensures ResolveInts(mask, mode, v).0 == 0 && ResolveInts(mask, mode, v).0 != DefaultSensorMask
    ensures (SensorMaskKey !in v.getErr && StartupModeKey !in v.getErr) ==>
              var w := v.(ints := v.ints[SensorMaskKey := StartupSta]);
              ResolveInts(mask, mode, w).1 == StartupSta
  {
  }

  /** nvs_get_i32's own status, which read_int drops. */
  function LookupIntChecked(v: NvsView, key: string, value: int): (r: (EspErr, int))
    requires v.Valid()
    ensures r.0 == EspOk <==> OpenReadOnly(v) == EspOk && key !in v.getErr && key in v.ints
    ensures r.0 == EspOk ==> r.1 == v.ints[key]
    ensures r.0 != EspOk ==> r.1 == value
    ensures OpenReadOnly(v) == EspOk && key !in v.getErr && key !in v.ints ==> r.0 == NvsNotFound
  {
    if OpenReadOnly(v) != EspOk then (OpenReadOnly(v), value)
    else if key in v.getErr then (v.getErr[key], value)
    else if key !in v.ints then (NvsNotFound, value)
    else (EspOk, v.ints[key])
  }

  /**
   * The integer reads as evidently intended: each key is resolved from its
   * own nvs_get_i32 status, so a missing key gives its default.
   */
  function ResolveIntsChecked(mask: int, mode: int, v: NvsView): (r: (int, int))
    requires -128 <= mask < 128 && v.Valid()
    ensures -128 <= r.0 < 128
    ensures r.1 == StartupSta || r.1 == StartupAp
    ensures OpenReadOnly(v) == EspOk && SensorMaskKey !in v.getErr && SensorMaskKey !in v.ints ==> r.0 == DefaultSensorMask
    ensures OpenReadOnly(v) == EspOk && StartupModeKey !in v.getErr && StartupModeKey !in v.ints ==> r.1 == StartupAp
    ensures OpenReadOnly(v) == EspOk && SensorMaskKey !in v.getErr && SensorMaskKey in v.ints ==> r.0 == Int8Of(v.ints[SensorMaskKey])
  {
    var (e1, b1) := LookupIntChecked(v, SensorMaskKey, 0);
    var m := if e1 == EspOk then Int8Of(b1) else if e1 == NvsNotFound then DefaultSensorMask else mask;
    var (e2, b2) := LookupIntChecked(v, StartupModeKey, 0);
    var w := if e2 == EspOk then b2 else if e2 == NvsNotFound then StartupAp else mode;
    (m, if w != StartupSta && w != StartupAp then StartupAp else w)
  }

  /** Where both keys are present and readable, the corrected reads agree with the code. */
  lemma CheckedAgreesWhenPresent(mask: int, mode: int, v: NvsView)
    requires -128 <= mask < 128 && v.Valid() && OpenReadOnly(v) == EspOk
    requires SensorMaskKey in v.ints && StartupModeKey in v.ints
    requires SensorMaskKey !in v.getErr && StartupModeKey !in v.getErr
    ensures ResolveIntsChecked(mask, mode, v) == ResolveInts(mask, mode, v)
  {
  }

  /**
   * The global system_state. Its fields are updated in place by the config
   * loader, the form handler and the WiFi event handler.
   */
  class SystemState {
    var staConnState: Byte
    var apConnState: Byte
    var currentIp: seq<Byte>
    var wifiState: WifiState
    var apSsid: seq<char>
    var apPass: seq<char>
    var staSsid: seq<char>
    var staPass: seq<char>
    var sensorMask: int
    var startupMode: int

    function Snapshot(): Record
      reads this
    {
      Record(staConnState, apConnState, currentIp, wifiState, apSsid, apPass, staSsid, staPass, sensorMask, startupMode)
    }

    predicate Valid()
      reads this
    {
      Snapshot().Valid()
    }

    /** The static initialiser: every field zero. */
    constructor()
      ensures Snapshot() == ZeroRecord() && Valid()
    {
      var z := ZeroRecord();
      staConnState, apConnState, currentIp, wifiState := z.staConnState, z.apConnState, z.currentIp, z.wifiState;
      apSsid, apPass, staSsid, staPass := z.apSsid, z.apPass, z.staSsid, z.staPass;
      sensorMask, startupMode := z.sensorMask, z.startupMode;
    }

    /** memset(&system_state, 0, sizeof(system_state_t)). */
    method Clear()
      modifies this
      ensures Snapshot() == ZeroRecord() && Valid()
    {
      var z := ZeroRecord();
      staConnState, apConnState, currentIp, wifiState := z.staConnState, z.apConnState, z.currentIp, z.wifiState;
      apSsid, apPass, staSsid, staPass := z.apSsid, z.apPass, z.staSsid, z.staPass;
      sensorMask, startupMode := z.sensorMask, z.startupMode;
    }

    /**
     * read_running_config: one buffer of SSID_MAX_LEN for the two SSIDs,
     * then one of PASS_MAX_LEN for the two passwords; buffer_size and the
     * buffer are reset before each read; then the two integers through the
     * shared buffer_int, and the validation of the startup mode.
     */
    method ReadRunningConfig(nvs: NvsFlash, d: Defaults, alloc: Allocation)
      requires Valid() && nvs.Valid()
      modifies this
      ensures Snapshot() == ReadConfig(old(Snapshot()), nvs.View(), d, alloc)
    {
      if !alloc.ssidBuffer {
        return;
      }
      ReadSsidFields(nvs, d);
      if !alloc.passBuffer {
        return;
      }
      ReadPassAndIntFields(nvs, d);
    }

    /** The SSID half of read_running_config, through one SSID_MAX_LEN buffer zeroed before each read. */
    method ReadSsidFields(nvs: NvsFlash, d: Defaults)
      requires Valid() && nvs.Valid()
      modifies this
      ensures Valid()
      ensures Snapshot() == ReadSsids(old(Snapshot()), nvs.View(), d)
    {
      var bufferSize := SsidMaxLen;
      var buffer := new char[bufferSize](_ => Nul);
      apSsid := ReadStringField(nvs, ApSsidKey, buffer, bufferSize, apSsid, d.apSsid);
      bufferSize := SsidMaxLen;
      forall i | 0 <= i < bufferSize {
        buffer[i] := Nul;
      }
      staSsid := ReadStringField(nvs, StaSsidKey, buffer, bufferSize, staSsid, d.staSsid);
    }

    /** The password half of read_running_config, then the two integer reads and the startup-mode check. */
    method ReadPassAndIntFields(nvs: NvsFlash, d: Defaults)
      requires Valid() && nvs.Valid()
      modifies this
      ensures Snapshot() == ReadRest(old(Snapshot()), nvs.View(), d)
    {
      var bufferSize := PassMaxLen;
      var buffer := new char[bufferSize](_ => Nul);
      apPass := ReadStringField(nvs, ApPassKey, buffer, bufferSize, apPass, d.apPass);
      bufferSize := PassMaxLen;
      forall i | 0 <= i < bufferSize {
        buffer[i] := Nul;
      }
      staPass := ReadStringField(nvs, StaPassKey, buffer, bufferSize, staPass, d.staPass);
      ReadIntFields(nvs);
    }

    /** The two integer reads of read_running_config and the startup-mode check. */
    method ReadIntFields(nvs: NvsFlash)
      requires -128 <= sensorMask < 128 && nvs.Valid()
      modifies this
      ensures var ints := ResolveInts(old(sensorMask), old(startupMode), nvs.View());
              Snapshot() == old(Snapshot()).(sensorMask := ints.0, startupMode := ints.1)
    {
      ghost var v := nvs.View();
      ghost var m0, s0 := old(sensorMask), old(startupMode);
      var bufferInt := 0;
      var err;
      err, bufferInt := nvs.ReadInt(SensorMaskKey, bufferInt);
      if err == EspOk {
        sensorMask := Int8Of(bufferInt);
      } else if err == NvsNotFound {
        sensorMask := DefaultSensorMask;
      }
      err, bufferInt := nvs.ReadInt(StartupModeKey, bufferInt);
      if err == EspOk {
        startupMode := bufferInt;
      } else if err == NvsNotFound {
        startupMode := StartupAp;
      }
      if startupMode != StartupSta && startupMode != StartupAp {
        startupMode := StartupAp;
      }
      assert (sensorMask, startupMode) == ResolveInts(m0, s0, v);
    }

    /** The five fields the settings form writes: the four credentials and the sensor mask. */
    method SetCredentials(newStaSsid: seq<char>, newStaPass: seq<char>, newApSsid: seq<char>, newApPass: seq<char>,
                          newMask: int)
      modifies this
      ensures Snapshot() == old(Snapshot()).(staSsid := newStaSsid, staPass := newStaPass, apSsid := newApSsid,
                                              apPass := newApPass, sensorMask := newMask)
    {
      staSsid, staPass, apSsid, apPass, sensorMask := newStaSsid, newStaPass, newApSsid, newApPass, newMask;
    }

    /**
     * store_running_config: stores the four strings and the two integers
     * under "as", "ss", "ap", "sp", "sm", "wm", ignoring every result.
     */
    method StoreRunningConfig(nvs: NvsFlash)
      requires Valid() && nvs.Valid()
      modifies nvs
      ensures nvs.Valid()
      ensures nvs.View() == StoreConfig(old(nvs.View()), Snapshot())
      ensures nvs.setCalls == old(nvs.setCalls) + if old(nvs.initialized) then StoreOrder else []
      ensures nvs.openHandles == old(nvs.openHandles)
                + (if old(nvs.initialized) && SensorMaskKey in nvs.setErr then 1 else 0)
                + (if old(nvs.initialized) && StartupModeKey in nvs.setErr then 1 else 0)
    {
      StoreStringFields(nvs);
      var ignored := nvs.StoreInt(SensorMaskKey, sensorMask);
      ignored := nvs.StoreInt(StartupModeKey, startupMode);
    }

    /** The four store_string calls of store_running_config. */
    method StoreStringFields(nvs: NvsFlash)
      requires Valid() && nvs.Valid()
      modifies nvs
      ensures nvs.Valid()
      ensures nvs.View() == StoreStrings(old(nvs.View()), Snapshot())
      ensures nvs.setCalls == old(nvs.setCalls) + if old(nvs.initialized) then StoreOrder[..4] else []
      ensures nvs.openHandles == old(nvs.openHandles)
    {
      var ignored := nvs.StoreString(ApSsidKey, CStr(apSsid));
      ignored := nvs.StoreString(StaSsidKey, CStr(staSsid));
      ignored := nvs.StoreString(ApPassKey, CStr(apPass));
      ignored := nvs.StoreString(StaPassKey, CStr(staPass));
    }
  }

  /**
   * One string read of read_running_config: read_string into the zeroed
   * buffer with *max_len = bufferSize, then the branch on its status and on
   * the buffer's first byte.
   */
  method ReadStringField(nvs: NvsFlash, key: string, buffer: array<char>, bufferSize: nat,
                         field: seq<char>, default: string) returns (r: seq<char>)
    requires nvs.Valid() && |field| > 0
    requires 0 < bufferSize == buffer.Length
    requires forall i :: 0 <= i < buffer.Length ==> buffer[i] == Nul
    modifies buffer
    ensures r == ResolveString(field, LookupString(nvs.View(), key, bufferSize), default)
  {
    var err, len := nvs.ReadString(key, buffer, bufferSize);
    ghost var read := LookupString(nvs.View(), key, bufferSize);
    if err == EspOk {
      if buffer[0] == Nul {
        r := Strlcpy(field, default);
      } else {
        r := Strlcpy(field, buffer[..]);
      }
    } else if err == NvsNotFound {
      r := Strlcpy(field, default);
    } else {
      r := field;
    }
    if read.Found? {
      assert buffer[..] == read.s + [Nul] + buffer[len..];
      CStrOfTerminated(read.s, buffer[len..]);
      CStrOfPlain(read.s);
      assert read.s == [] <==> buffer[0] == Nul;
    }
  }

  /** nvs_initialize with the outcomes of the library calls given; aborts through ESP_ERROR_CHECK. */
  method NvsInitialize(nvs: NvsFlash, firstInit: EspErr, secondInit: EspErr) returns (aborted: bool)
    requires nvs.Valid()
    modifies nvs
    ensures nvs.Valid()
    ensures nvs.setCalls == old(nvs.setCalls) && nvs.commits == old(nvs.commits) && nvs.openHandles == old(nvs.openHandles)
    ensures firstInit != NvsNoFreePages && firstInit != NvsNewVersionFound ==>
              aborted == (firstInit != EspOk) && nvs.View() == old(nvs.View()).(initialized := old(nvs.initialized) || firstInit == EspOk)
    ensures firstInit == NvsNoFreePages || firstInit == NvsNewVersionFound ==>
              aborted == (secondInit != EspOk)
              && nvs.View() == old(nvs.View()).(strings := map[], ints := map[], namespaceExists := false, initialized := secondInit == EspOk)
    ensures !aborted ==> nvs.initialized
  {
    nvs.FlashInit(firstInit);
    var ret := firstInit;
    if ret == NvsNoFreePages || ret == NvsNewVersionFound {
      nvs.FlashErase();
      nvs.FlashInit(secondInit);
      ret := secondInit;
    }
    aborted := ret != EspOk;
  }

  /**
   * create_default_config_file: open with O_CREAT (fails when nothing is
   * mounted) and write the embedded default at the start of the file.
   * written is what write returns: negative for a failed write, otherwise
   * the number of bytes that landed, which may fall short of the default's
   * size; only a negative count is reported as ESP_FAIL.
   */
  method CreateDefaultConfigFile(fs: FileSystem, defaultConfig: string, written: int) returns (err: EspErr)
    modifies fs
    ensures fs.mounted == old(fs.mounted)
    ensures !fs.mounted ==> err == EspFail && fs.files == old(fs.files)
    ensures fs.mounted ==> (err == EspOk <==> written >= 0) && (err == EspOk || err == EspFail)
    ensures fs.mounted ==> fs.files == old(fs.files)[ConfigFilePath := WriteAtStart(
              if ConfigFilePath in old(fs.files) then old(fs.files)[ConfigFilePath] else "", Landed(defaultConfig, written))]
  {
    if !fs.mounted {
      return EspFail;
    }
    var existing := if ConfigFilePath in fs.files then fs.files[ConfigFilePath] else "";
    fs.files := fs.files[ConfigFilePath := WriteAtStart(existing, Landed(defaultConfig, written))];
    err := if written < 0 then EspFail else EspOk;
  }

  /** The bytes of data a write returning written put in the file: none on failure, else a prefix of that many bytes. */
  function Landed(data: string, written: int): (r: string)
    ensures r <= data
    ensures written < 0 ==> r == []
    ensures 0 <= written <= |data| ==> |r| == written
    ensures written >= |data| ==> r == data
  {
    if written < 0 then [] else data[..Min(written, |data|)]
  }

  /** The content of a file after data is written at offset 0 without truncation. */
  function WriteAtStart(existing: string, data: string): (r: string)
    ensures |r| == if |existing| > |data| then |existing| else |data|
    ensures data <= r && r[|data|..] == existing[Min(|data|, |existing|)..]
  {
    data + if |existing| > |data| then existing[|data|..] else []
  }

  /** The outcomes of the platform calls system_initialize makes. */
  datatype BootInputs = BootInputs(
    mountOk: bool, defaultConfig: string, written: int, stateAlloc: bool,
    firstRead: Allocation, firstInit: EspErr, secondInit: EspErr, secondRead: Allocation)

  /**
   * system_initialize: zero the record, mount the FAT volume, create the
   * default config file when it is missing (aborting when that fails), read
   * the config before and after nvs_initialize. Returns whether an
   * ESP_ERROR_CHECK aborted.
   */
  method SystemInitialize(st: SystemState, nvs: NvsFlash, fs: FileSystem, d: Defaults, b: BootInputs)
    returns (aborted: bool)
    requires nvs.Valid()
    modifies st, nvs, fs
    ensures st.Valid() && nvs.Valid()
    ensures fs.mounted == b.mountOk
    ensures old(PrototypeFunctions.TestFile(fs, ConfigFilePath)) || !b.mountOk ==> fs.files == old(fs.files)
    ensures !old(PrototypeFunctions.TestFile(fs, ConfigFilePath)) && b.mountOk ==> ConfigFilePath in fs.files
    ensures !aborted && b.mountOk ==> ConfigFilePath in fs.files
    ensures nvs.setCalls == old(nvs.setCalls) && nvs.commits == old(nvs.commits)
    ensures !b.stateAlloc && !aborted ==> st.Snapshot() == ZeroRecord()
    ensures b.stateAlloc && !aborted ==>
              nvs.initialized
              && st.Snapshot() == ReadConfig(ReadConfig(ZeroRecord(), old(nvs.View()), d, b.firstRead), nvs.View(), d, b.secondRead)
  {
    st.Clear();
    fs.Mount(b.mountOk);
    aborted := false;
    if !PrototypeFunctions.TestFile(fs, ConfigFilePath) {
      var err := CreateDefaultConfigFile(fs, b.defaultConfig, b.written);
      if err != EspOk {
        return true;
      }
    }
    if !b.stateAlloc {
      return;
    }
    st.ReadRunningConfig(nvs, d, b.firstRead);
    aborted := NvsInitialize(nvs, b.firstInit, b.secondInit);
    if aborted {
      return;
    }
    st.ReadRunningConfig(nvs, d, b.secondRead);
  }
}
