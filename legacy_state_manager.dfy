/**
 * The device record of the older firmware tree (esp/main) and its config
 * loader and store.
 *
 * The record is held byte by byte, laid out as the compiler lays out
 * system_state_t. The macros SYSTEM_STATE_SET(field, value) and
 * SYSTEM_STATE_GET(field, output) copy sizeof(value) bytes from &value, so
 * what they move depends on the C type of their argument; only a byte view
 * shows what they do. A byte of the record is a char cell (a C char).
 */
module LegacyStateManager {
  import opened Esp
  import opened NvsManager
  import StateManager

  const SsidMaxLen: nat := 32
  const PassMaxLen: nat := 64

  const ApSsidKey := "as"
  const ApPassKey := "ap"
  const ApChannelKey := "ac"
  const StaSsidKey := "ss"
  const StaPassKey := "sp"

  /** The keys store_running_config writes, in the order it writes them. */
  const StoreOrder := [ApSsidKey, StaSsidKey, ApPassKey, StaPassKey, ApChannelKey]

  /** sizeof(char *) and sizeof(int32_t) on the ESP32. */
  const PointerSize: nat := 4

  /* Offsets of the fields of system_state_t: natural alignment, a 4-byte enum. */
  const StaConnOffset: nat := 0
  const ApConnOffset: nat := 1
  const IpOffset: nat := 4
  const WifiStateOffset: nat := 8
  const ApSsidOffset: nat := 12
  const ApPassOffset: nat := 44
  const ApChannelOffset: nat := 108
  const StaSsidOffset: nat := 112
  const StaPassOffset: nat := 144
  const SensorMaskOffset: nat := 208
  /** sizeof(system_state_t): 209 bytes of fields padded to a multiple of 4. */
  const RecordSize: nat := 212

  /** wifi_state_t. */
  const WifiStateNone := 0
  const WifiStateSta := 1
  const WifiStateAp := 2
  const WifiStateTransition := 3

  /** The AP channels read_running_config accepts, and the one it falls back to. */
  const ChannelMin := 1
  const ChannelMax := 13
  const FallbackChannel := 1

  /* ---------------- bytes ---------------- */

  /** The byte a char cell holds. */
  function Code(c: char): Byte
  {
    (c as int) % 256
  }

  function Cell(b: Byte): char
  {
    b as char
  }

  /** The four bytes of a 32-bit value in memory order (little-endian, two's complement). */
  function Le32(v: int): (r: seq<char>)
    ensures |r| == PointerSize
  {
    var u := Uint32Of(v);
    [Cell(u % 256), Cell(u / 0x100 % 256), Cell(u / 0x100 / 0x100 % 256), Cell(u / 0x100 / 0x100 / 0x100 % 256)]
  }

  /** The uint32_t four bytes in memory order stand for. */
  function Le32Value(s: seq<char>): (r: nat)
    requires |s| == PointerSize
    ensures r < 0x1_0000_0000
  {
    Code(s[0]) + 0x100 * (Code(s[1]) + 0x100 * (Code(s[2]) + 0x100 * Code(s[3])))
  }

  /** Reinterpretation of a uint32_t as int32_t. */
  function Int32Of(u: int): int
  {
    if u < 0x8000_0000 then u else u - 0x1_0000_0000
  }

  /** Writing a value's four bytes and reading them back gives the value, reduced to uint32_t. */
  lemma Le32Unsigned(v: int)
    ensures Le32Value(Le32(v)) == Uint32Of(v)
  {
    var u := Uint32Of(v);
    var s := Le32(v);
    var q1 := u / 0x100;
    var q2 := q1 / 0x100;
    var q3 := q2 / 0x100;
    assert Code(s[0]) == u % 256 && Code(s[1]) == q1 % 256;
    assert Code(s[2]) == q2 % 256 && Code(s[3]) == q3 % 256;
    Base256(u, q1, q2, q3);
  }

  /** A uint32_t is the sum of its four base-256 digits. */
  lemma Base256(u: int, q1: int, q2: int, q3: int)
    requires 0 <= u < 0x1_0000_0000 && q1 == u / 0x100 && q2 == q1 / 0x100 && q3 == q2 / 0x100
    ensures u % 256 + 0x100 * (q1 % 256 + 0x100 * (q2 % 256 + 0x100 * (q3 % 256))) == u
  {
    assert u == u % 256 + 0x100 * q1;
    assert q1 == q1 % 256 + 0x100 * q2;
    assert q2 == q2 % 256 + 0x100 * q3;
    assert q3 < 256;
  }

  /** An int32_t survives a round trip through its four bytes. */
  lemma Le32RoundTrip(v: int)
    requires IsInt32(v)
    ensures Int32Of(Le32Value(Le32(v))) == v
  {
    Le32Unsigned(v);
    if v < 0 {
      assert Uint32Of(v) == v + 0x1_0000_0000;
    }
  }

  /* ---------------- the record as bytes ---------------- */

  /** memcpy(record + offset, src, |src|). */
  function Copy(mem: seq<char>, offset: nat, src: seq<char>): (r: seq<char>)
    requires offset + |src| <= |mem|
    ensures |r| == |mem|
    ensures r[offset..offset + |src|] == src
    ensures r[..offset] == mem[..offset] && r[offset + |src|..] == mem[offset + |src|..]
  {
    mem[..offset] + src + mem[offset + |src|..]
  }

  /** A copy leaves every range of bytes it does not overlap as it was. */
  lemma CopyKeeps(mem: seq<char>, offset: nat, src: seq<char>, a: nat, b: nat)
    requires offset + |src| <= |mem| && a <= b <= |mem|
    requires b <= offset || offset + |src| <= a
    ensures Copy(mem, offset, src)[a..b] == mem[a..b]
  {
    var r := Copy(mem, offset, src);
    if b <= offset {
      assert r[a..b] == r[..offset][a..b];
    } else {
      assert r[a..b] == r[offset + |src|..][a - offset - |src|..b - offset - |src|];
    }
  }

  /** The bytes of a field. */
  function FieldBytes(mem: seq<char>, offset: nat, width: nat): seq<char>
    requires offset + width <= |mem|
  {
    mem[offset..offset + width]
  }

  /** The int32_t stored at an offset. */
  function Int32At(mem: seq<char>, offset: nat): int
    requires offset + PointerSize <= |mem|
  {
    Int32Of(Le32Value(mem[offset..offset + PointerSize]))
  }

  /** system_state.ap_channel. */
  function ApChannel(mem: seq<char>): int
    requires |mem| == RecordSize
  {
    Int32At(mem, ApChannelOffset)
  }

  /** system_state.wifi_state. */
  function WifiState(mem: seq<char>): int
    requires |mem| == RecordSize
  {
    Int32At(mem, WifiStateOffset)
  }

  /** system_state.sensor_mask, an int8_t. */
  function SensorMask(mem: seq<char>): int
    requires |mem| == RecordSize
  {
    Int8Of(Code(mem[SensorMaskOffset]))
  }

  /** The all-zero record: the static initialiser and the memset of system_initialize. */
  function ZeroBytes(): (r: seq<char>)
    ensures |r| == RecordSize && forall i :: 0 <= i < RecordSize ==> r[i] == Nul
  {
    seq(RecordSize, _ => Nul)
  }

  /** The CONFIG_DEFAULT_* values of the build configuration. */
  datatype LegacyDefaults = LegacyDefaults(apSsid: string, apPass: string, staSsid: string, staPass: string, apChannel: int)
  {
    /** Each default string fits its field together with its NUL; the channel is an int32_t. */
    predicate Valid()
    {
      && Nul !in apSsid && |apSsid| < SsidMaxLen && Nul !in staSsid && |staSsid| < SsidMaxLen
      && Nul !in apPass && |apPass| < PassMaxLen && Nul !in staPass && |staPass| < PassMaxLen
      && IsInt32(apChannel)
    }
  }

  /* ---------------- read_running_config as written ---------------- */

  /**
   * One string read as written. ESP_OK makes SYSTEM_STATE_SET(field, buffer)
   * copy sizeof(char *) bytes from &buffer: the address of the heap buffer,
   * not its contents. NOT_FOUND copies the default literal with its NUL.
   * Any other status leaves the field. An empty stored string is not told
   * apart from any other.
   */
  function SetFromRead(mem: seq<char>, offset: nat, width: nat, read: StrRead, pointer: int, default: string): (r: seq<char>)
    requires |mem| == RecordSize && offset + width <= RecordSize && PointerSize <= width && |default| < width
    ensures |r| == RecordSize
    ensures r[..offset] == mem[..offset] && r[offset + width..] == mem[offset + width..]
    ensures Status(read) == EspOk ==> r[offset..offset + width] == Le32(pointer) + mem[offset + PointerSize..offset + width]
    ensures Status(read) != EspOk && Status(read) != NvsNotFound ==> r == mem
  {
    var r := if Status(read) == EspOk then Copy(mem, offset, Le32(pointer))
             else if Status(read) == NvsNotFound then Copy(mem, offset, default + [Nul])
             else mem;
    assert r[..offset] == mem[..offset];
    assert r[offset + width..] == mem[offset + width..] by {
      if Status(read) == EspOk {
        CopyKeeps(mem, offset, Le32(pointer), offset + width, RecordSize);
      } else if Status(read) == NvsNotFound {
        CopyKeeps(mem, offset, default + [Nul], offset + width, RecordSize);
      }
    }
    assert Status(read) == EspOk ==> r[offset..offset + width] == Le32(pointer) + mem[offset + PointerSize..offset + width] by {
      if Status(read) == EspOk {
        assert r[offset..offset + width] == r[offset..offset + PointerSize] + r[offset + PointerSize..offset + width];
        CopyKeeps(mem, offset, Le32(pointer), offset + PointerSize, offset + width);
      }
    }
    r
  }

  /** *max_len after read_string: the stored size with its NUL on success, unchanged otherwise. */
  function SizeAfter(read: StrRead, size: nat): nat
  {
    if read.Found? then |read.s| + 1 else size
  }

  /** What read_running_config leaves behind: the record and the NVS partition. */
  datatype Loaded = Loaded(mem: seq<char>, nvs: NvsView)

  /** The two SSID reads through one SSID_MAX_LEN + 1 buffer, whose size is not reset in between. */
  function LoadSsids(mem: seq<char>, v: NvsView, d: LegacyDefaults, heap: int): (r: seq<char>)
    requires |mem| == RecordSize && v.Valid() && d.Valid()
    ensures |r| == RecordSize
  {
    var first := LookupString(v, ApSsidKey, SsidMaxLen + 1);
    var m1 := SetFromRead(mem, ApSsidOffset, SsidMaxLen, first, heap, d.apSsid);
    var second := LookupString(v, StaSsidKey, SizeAfter(first, SsidMaxLen + 1));
    SetFromRead(m1, StaSsidOffset, SsidMaxLen, second, heap, d.staSsid)
  }

  /** The two password reads through one PASS_MAX_LEN + 1 buffer, whose size is not reset in between. */
  function LoadPasswords(mem: seq<char>, v: NvsView, d: LegacyDefaults, heap: int): (r: seq<char>)
    requires |mem| == RecordSize && v.Valid() && d.Valid()
    ensures |r| == RecordSize
  {
    var first := LookupString(v, ApPassKey, PassMaxLen + 1);
    var m1 := SetFromRead(mem, ApPassOffset, PassMaxLen, first, heap, d.apPass);
    var second := LookupString(v, StaPassKey, SizeAfter(first, PassMaxLen + 1));
    SetFromRead(m1, StaPassOffset, PassMaxLen, second, heap, d.staPass)
  }

  /**
   * The AP channel: the stored value on ESP_OK; on NOT_FOUND the default,
   * which is also written back; then anything outside 1..13 becomes 1.
   */
  function LoadChannel(mem: seq<char>, v: NvsView, d: LegacyDefaults): (r: Loaded)
    requires |mem| == RecordSize && v.Valid() && d.Valid()
    ensures |r.mem| == RecordSize
    ensures r.mem[..ApChannelOffset] == mem[..ApChannelOffset]
    ensures r.mem[StaSsidOffset..] == mem[StaSsidOffset..]
  {
    var (err, stored) := LookupInt(v, ApChannelKey, 0);
    var channel := if err == EspOk then stored else if err == NvsNotFound then d.apChannel else 0;
    var m1 := if err == EspOk || err == NvsNotFound then Copy(mem, ApChannelOffset, Le32(channel)) else mem;
    var w := if err == NvsNotFound then StoreIntView(v, ApChannelKey, d.apChannel).1 else v;
    Loaded(if channel < ChannelMin || channel > ChannelMax then Copy(m1, ApChannelOffset, Le32(FallbackChannel)) else m1, w)
  }

  /**
   * read_running_config as written, given the addresses malloc and realloc
   * return (realloc returning NULL ends it after the SSIDs).
   */
  function LoadConfig(mem: seq<char>, v: NvsView, d: LegacyDefaults, heap: int, moved: Option<int>): (r: Loaded)
    requires |mem| == RecordSize && v.Valid() && d.Valid()
    ensures |r.mem| == RecordSize
  {
    var m2 := LoadSsids(mem, v, d, heap);
    match moved
    case None => Loaded(m2, v)
    case Some(heap2) => LoadChannel(LoadPasswords(m2, v, d, heap2), v, d)
  }

  /**
   * After a load that gets past the realloc, the AP channel is in 1..13;
   * a stored channel in range is kept; a missing namespace gives the
   * default (when in range), which is then stored under "ac".
   */
  lemma ChannelClamped(mem: seq<char>, v: NvsView, d: LegacyDefaults, heap: int, heap2: int)
    requires |mem| == RecordSize && v.Valid() && d.Valid()
    ensures var r := LoadConfig(mem, v, d, heap, Some(heap2));
            && ChannelMin <= ApChannel(r.mem) <= ChannelMax
            && ((OpenReadOnly(v) == EspOk && ApChannelKey in v.ints && ApChannelKey !in v.getErr
                 && ChannelMin <= v.ints[ApChannelKey] <= ChannelMax) ==> ApChannel(r.mem) == v.ints[ApChannelKey])
            && (OpenReadOnly(v) == NvsNotFound ==>
                  && (ChannelMin <= d.apChannel <= ChannelMax ==> ApChannel(r.mem) == d.apChannel)
                  && (ApChannelKey !in v.setErr ==> ApChannelKey in r.nvs.ints && r.nvs.ints[ApChannelKey] == d.apChannel))
            && (OpenReadOnly(v) != NvsNotFound ==> r.nvs == v)
  {
    var m4 := LoadPasswords(LoadSsids(mem, v, d, heap), v, d, heap2);
    var (err, stored) := LookupInt(v, ApChannelKey, 0);
    var channel := if err == EspOk then stored else if err == NvsNotFound then d.apChannel else 0;
    Le32RoundTrip(FallbackChannel);
    if err == EspOk {
      assert IsInt32(stored) by {
        if stored != 0 {
          assert v.ints[ApChannelKey] == stored;
        }
      }
    }
    if err == EspOk || err == NvsNotFound {
      Le32RoundTrip(channel);
    }
  }

  /** A load changes only the string fields and the channel: the WiFi fields and the sensor mask keep their bytes. */
  lemma LoadKeepsOtherFields(mem: seq<char>, v: NvsView, d: LegacyDefaults, heap: int, moved: Option<int>)
    requires |mem| == RecordSize && v.Valid() && d.Valid()
    ensures var r := LoadConfig(mem, v, d, heap, moved).mem;
            r[..ApSsidOffset] == mem[..ApSsidOffset] && r[SensorMaskOffset..] == mem[SensorMaskOffset..]
  {
    var m2 := LoadSsids(mem, v, d, heap);
    SsidsKeepOthers(mem, v, d, heap);
    if moved.Some? {
      var m4 := LoadPasswords(m2, v, d, moved.value);
      PasswordsKeepOthers(m2, v, d, moved.value);
      var r := LoadChannel(m4, v, d).mem;
      KeepsNarrower(m4, r, ApChannelOffset, StaSsidOffset);
    }
  }

  /** Equal prefixes and suffixes stay equal when cut shorter. */
  lemma KeepsNarrower(a: seq<char>, b: seq<char>, p: nat, q: nat)
    requires |a| == |b| == RecordSize && ApSsidOffset <= p <= q <= SensorMaskOffset
    requires b[..p] == a[..p] && b[q..] == a[q..]
    ensures b[..ApSsidOffset] == a[..ApSsidOffset] && b[SensorMaskOffset..] == a[SensorMaskOffset..]
  {
    assert b[..ApSsidOffset] == b[..p][..ApSsidOffset] && a[..ApSsidOffset] == a[..p][..ApSsidOffset];
    assert b[SensorMaskOffset..] == b[q..][SensorMaskOffset - q..] && a[SensorMaskOffset..] == a[q..][SensorMaskOffset - q..];
  }

  /** The SSID reads leave the WiFi fields and the sensor mask alone. */
  lemma SsidsKeepOthers(mem: seq<char>, v: NvsView, d: LegacyDefaults, heap: int)
    requires |mem| == RecordSize && v.Valid() && d.Valid()
    ensures var r := LoadSsids(mem, v, d, heap);
            r[..ApSsidOffset] == mem[..ApSsidOffset] && r[SensorMaskOffset..] == mem[SensorMaskOffset..]
  {
    var first := LookupString(v, ApSsidKey, SsidMaxLen + 1);
    var m1 := SetFromRead(mem, ApSsidOffset, SsidMaxLen, first, heap, d.apSsid);
    KeepsNarrower(mem, m1, ApSsidOffset, ApSsidOffset + SsidMaxLen);
    var second := LookupString(v, StaSsidKey, SizeAfter(first, SsidMaxLen + 1));
    var m2 := SetFromRead(m1, StaSsidOffset, SsidMaxLen, second, heap, d.staSsid);
    KeepsNarrower(m1, m2, StaSsidOffset, StaSsidOffset + SsidMaxLen);
  }

  /** The password reads leave the WiFi fields and the sensor mask alone. */
  lemma PasswordsKeepOthers(mem: seq<char>, v: NvsView, d: LegacyDefaults, heap: int)
    requires |mem| == RecordSize && v.Valid() && d.Valid()
    ensures var r := LoadPasswords(mem, v, d, heap);
            r[..ApSsidOffset] == mem[..ApSsidOffset] && r[SensorMaskOffset..] == mem[SensorMaskOffset..]
  {
    var first := LookupString(v, ApPassKey, PassMaxLen + 1);
    var m1 := SetFromRead(mem, ApPassOffset, PassMaxLen, first, heap, d.apPass);
    KeepsNarrower(mem, m1, ApPassOffset, ApPassOffset + PassMaxLen);
    var second := LookupString(v, StaPassKey, SizeAfter(first, PassMaxLen + 1));
    var m2 := SetFromRead(m1, StaPassOffset, PassMaxLen, second, heap, d.staPass);
    KeepsNarrower(m1, m2, StaPassOffset, StaPassOffset + PassMaxLen);
  }

  /**
   * As written, a stored AP SSID never reaches the record: the field gets
   * the four bytes of the heap buffer's address and keeps the rest.
   */
  lemma PointerCopyAsWritten(mem: seq<char>, v: NvsView, d: LegacyDefaults, heap: int, moved: Option<int>)
    requires |mem| == RecordSize && v.Valid() && d.Valid()
    requires Status(LookupString(v, ApSsidKey, SsidMaxLen + 1)) == EspOk
    ensures FieldBytes(LoadConfig(mem, v, d, heap, moved).mem, ApSsidOffset, SsidMaxLen)
              == Le32(heap) + mem[ApSsidOffset + PointerSize..ApPassOffset]
  {
    var m1 := SetFromRead(mem, ApSsidOffset, SsidMaxLen, LookupString(v, ApSsidKey, SsidMaxLen + 1), heap, d.apSsid);
    var m2 := LoadSsids(mem, v, d, heap);
    assert m2[..StaSsidOffset] == m1[..StaSsidOffset];
    assert m2[ApSsidOffset..ApPassOffset] == m2[..StaSsidOffset][ApSsidOffset..ApPassOffset];
    assert m1[ApSsidOffset..ApPassOffset] == m1[..StaSsidOffset][ApSsidOffset..ApPassOffset];
    if moved.Some? {
      var m3 := SetFromRead(m2, ApPassOffset, PassMaxLen, LookupString(v, ApPassKey, PassMaxLen + 1), moved.value, d.apPass);
      var m4 := LoadPasswords(m2, v, d, moved.value);
      assert m3[..ApPassOffset] == m2[..ApPassOffset];
      assert m3[ApSsidOffset..ApPassOffset] == m3[..ApPassOffset][ApSsidOffset..ApPassOffset];
      assert m2[ApSsidOffset..ApPassOffset] == m2[..ApPassOffset][ApSsidOffset..ApPassOffset];
      assert m4[..StaPassOffset] == m3[..StaPassOffset];
      assert m4[ApSsidOffset..ApPassOffset] == m4[..StaPassOffset][ApSsidOffset..ApPassOffset];
      assert m3[ApSsidOffset..ApPassOffset] == m3[..StaPassOffset][ApSsidOffset..ApPassOffset];
      var (err, stored) := LookupInt(v, ApChannelKey, 0);
      var channel := if err == EspOk then stored else if err == NvsNotFound then d.apChannel else 0;
      var m5 := if err == EspOk || err == NvsNotFound then Copy(m4, ApChannelOffset, Le32(channel)) else m4;
      CopyKeeps(m4, ApChannelOffset, Le32(channel), ApSsidOffset, ApPassOffset);
      CopyKeeps(m5, ApChannelOffset, Le32(FallbackChannel), ApSsidOffset, ApPassOffset);
    }
  }

  /** On the zeroed record of system_initialize, the AP SSID read back is at most four bytes long. */
  lemma PointerCopyLosesSsid(v: NvsView, d: LegacyDefaults, heap: int, moved: Option<int>)
    requires v.Valid() && d.Valid()
    requires OpenReadOnly(v) == EspOk && ApSsidKey !in v.getErr && ApSsidKey in v.strings
    requires PointerSize < |v.strings[ApSsidKey]| < SsidMaxLen
    ensures CStr(FieldBytes(LoadConfig(ZeroBytes(), v, d, heap, moved).mem, ApSsidOffset, SsidMaxLen)) != v.strings[ApSsidKey]
  {
    PointerCopyAsWritten(ZeroBytes(), v, d, heap, moved);
    var f := FieldBytes(LoadConfig(ZeroBytes(), v, d, heap, moved).mem, ApSsidOffset, SsidMaxLen);
    assert f[PointerSize] == Nul;
  }

  /**
   * As written, buffer_size keeps the AP SSID's stored size for the STA
   * SSID read: an STA SSID longer than the AP SSID is rejected with
   * ESP_ERR_NVS_INVALID_LENGTH although it fits the 33-byte buffer, and the
   * field keeps its bytes.
   */
  lemma BufferSizeCarriedOver(mem: seq<char>, v: NvsView, d: LegacyDefaults, heap: int, moved: Option<int>)
    requires |mem| == RecordSize && v.Valid() && d.Valid()
    requires OpenReadOnly(v) == EspOk && ApSsidKey !in v.getErr && ApSsidKey !in v.readErr
    requires StaSsidKey !in v.getErr && StaSsidKey !in v.readErr
    requires ApSsidKey in v.strings && StaSsidKey in v.strings
    requires |v.strings[ApSsidKey]| < |v.strings[StaSsidKey]| <= SsidMaxLen
    ensures LookupString(v, StaSsidKey, SsidMaxLen + 1).Found?
    ensures FieldBytes(LoadConfig(mem, v, d, heap, moved).mem, StaSsidOffset, SsidMaxLen) == mem[StaSsidOffset..StaPassOffset]
  {
    var first := LookupString(v, ApSsidKey, SsidMaxLen + 1);
    assert SizeAfter(first, SsidMaxLen + 1) == |v.strings[ApSsidKey]| + 1;
    var m1 := SetFromRead(mem, ApSsidOffset, SsidMaxLen, first, heap, d.apSsid);
    var m2 := LoadSsids(mem, v, d, heap);
    assert m1[StaSsidOffset..StaPassOffset] == m1[ApPassOffset..][StaSsidOffset - ApPassOffset..StaPassOffset - ApPassOffset];
    assert mem[StaSsidOffset..StaPassOffset] == mem[ApPassOffset..][StaSsidOffset - ApPassOffset..StaPassOffset - ApPassOffset];
    if moved.Some? {
      var m3 := SetFromRead(m2, ApPassOffset, PassMaxLen, LookupString(v, ApPassKey, PassMaxLen + 1), moved.value, d.apPass);
      var m4 := LoadPasswords(m2, v, d, moved.value);
      assert m3[StaSsidOffset..StaPassOffset] == m3[ApChannelOffset..][StaSsidOffset - ApChannelOffset..StaPassOffset - ApChannelOffset];
      assert m2[StaSsidOffset..StaPassOffset] == m2[ApChannelOffset..][StaSsidOffset - ApChannelOffset..StaPassOffset - ApChannelOffset];
      assert m4[StaSsidOffset..StaPassOffset] == m4[..StaPassOffset][StaSsidOffset..StaPassOffset];
      assert m3[StaSsidOffset..StaPassOffset] == m3[..StaPassOffset][StaSsidOffset..StaPassOffset];
      var (err, stored) := LookupInt(v, ApChannelKey, 0);
      var channel := if err == EspOk then stored else if err == NvsNotFound then d.apChannel else 0;
      var m5 := if err == EspOk || err == NvsNotFound then Copy(m4, ApChannelOffset, Le32(channel)) else m4;
      CopyKeeps(m4, ApChannelOffset, Le32(channel), StaSsidOffset, StaPassOffset);
      CopyKeeps(m5, ApChannelOffset, Le32(FallbackChannel), StaSsidOffset, StaPassOffset);
    }
  }

  /** Two records that agree outside [lo, hi) agree on every range that misses it. */
  lemma SameOutside(a: seq<char>, b: seq<char>, lo: nat, hi: nat, i: nat, j: nat)
    requires |a| == |b| && lo <= hi <= |a| && i <= j <= |a|
    requires a[..lo] == b[..lo] && a[hi..] == b[hi..]
    requires j <= lo || hi <= i
    ensures a[i..j] == b[i..j]
  {
    if j <= lo {
      forall k | i <= k < j
        ensures a[k] == b[k]
      {
        assert a[k] == a[..lo][k] && b[k] == b[..lo][k];
      }
    } else {
      forall k | i <= k < j
        ensures a[k] == b[k]
      {
        assert a[k] == a[hi..][k - hi] && b[k] == b[hi..][k - hi];
      }
    }
  }

  /* ---------------- read_running_config as evidently intended ---------------- */

  /**
   * One string read as evidently intended: the string read is copied into
   * the field with strlcpy (an empty one too, as the code accepts it); a
   * dropped copy leaves the zeroed buffer, so the field becomes empty;
   * NOT_FOUND gives the default; any other status leaves the field.
   */
  function ResolveIntended(field: seq<char>, read: StrRead, default: string): (r: seq<char>)
    requires |field| > 0
    ensures |r| == |field| && (Nul in r || r == field)
    ensures read.Found? ==> CStr(r) == CStr(read.s)[..Min(|CStr(read.s)|, |field| - 1)]
    ensures read.Dropped? ==> CStr(r) == []
    ensures read == Failed(NvsNotFound) ==> CStr(r) == CStr(default)[..Min(|CStr(default)|, |field| - 1)]
    ensures read.Failed? && read.err != NvsNotFound ==> r == field
  {
    match read
    case Found(s) => Strlcpy(field, s)
    case Dropped => Strlcpy(field, [])
    case Failed(e) => if e == NvsNotFound then Strlcpy(field, default) else field
  }

  /** A field resolved in place. */
  function SetIntended(mem: seq<char>, offset: nat, width: nat, read: StrRead, default: string): (r: seq<char>)
    requires |mem| == RecordSize && 0 < width && offset + width <= RecordSize
    ensures |r| == RecordSize
    ensures r[..offset] == mem[..offset] && r[offset + width..] == mem[offset + width..]
    ensures r[offset..offset + width] == ResolveIntended(mem[offset..offset + width], read, default)
  {
    Copy(mem, offset, ResolveIntended(mem[offset..offset + width], read, default))
  }

  /**
   * The loader as evidently intended: every string read starts from the
   * full buffer size and its result is copied into the field; the channel
   * is handled as written.
   */
  function LoadIntended(mem: seq<char>, v: NvsView, d: LegacyDefaults, reallocOk: bool): (r: Loaded)
    requires |mem| == RecordSize && v.Valid() && d.Valid()
    ensures |r.mem| == RecordSize
  {
    var m1 := SetIntended(mem, ApSsidOffset, SsidMaxLen, LookupString(v, ApSsidKey, SsidMaxLen + 1), d.apSsid);
    var m2 := SetIntended(m1, StaSsidOffset, SsidMaxLen, LookupString(v, StaSsidKey, SsidMaxLen + 1), d.staSsid);
    if !reallocOk then Loaded(m2, v)
    else
      var m3 := SetIntended(m2, ApPassOffset, PassMaxLen, LookupString(v, ApPassKey, PassMaxLen + 1), d.apPass);
      var m4 := SetIntended(m3, StaPassOffset, PassMaxLen, LookupString(v, StaPassKey, PassMaxLen + 1), d.staPass);
      LoadChannel(m4, v, d)
  }

  /** Each string field after the intended load is its own read resolved against its old bytes. */
  lemma IntendedFields(mem: seq<char>, v: NvsView, d: LegacyDefaults)
    requires |mem| == RecordSize && v.Valid() && d.Valid()
    ensures var r := LoadIntended(mem, v, d, true).mem;
            && FieldBytes(r, ApSsidOffset, SsidMaxLen)
                 == ResolveIntended(FieldBytes(mem, ApSsidOffset, SsidMaxLen), LookupString(v, ApSsidKey, SsidMaxLen + 1), d.apSsid)
            && FieldBytes(r, StaSsidOffset, SsidMaxLen)
                 == ResolveIntended(FieldBytes(mem, StaSsidOffset, SsidMaxLen), LookupString(v, StaSsidKey, SsidMaxLen + 1), d.staSsid)
            && FieldBytes(r, ApPassOffset, PassMaxLen)
                 == ResolveIntended(FieldBytes(mem, ApPassOffset, PassMaxLen), LookupString(v, ApPassKey, PassMaxLen + 1), d.apPass)
            && FieldBytes(r, StaPassOffset, PassMaxLen)
                 == ResolveIntended(FieldBytes(mem, StaPassOffset, PassMaxLen), LookupString(v, StaPassKey, PassMaxLen + 1), d.staPass)
  {
    var m1 := SetIntended(mem, ApSsidOffset, SsidMaxLen, LookupString(v, ApSsidKey, SsidMaxLen + 1), d.apSsid);
    var m2 := SetIntended(m1, StaSsidOffset, SsidMaxLen, LookupString(v, StaSsidKey, SsidMaxLen + 1), d.staSsid);
    var m3 := SetIntended(m2, ApPassOffset, PassMaxLen, LookupString(v, ApPassKey, PassMaxLen + 1), d.apPass);
    var m4 := SetIntended(m3, StaPassOffset, PassMaxLen, LookupString(v, StaPassKey, PassMaxLen + 1), d.staPass);
    var r := LoadChannel(m4, v, d).mem;
    // the AP SSID, written first
    SameOutside(m1, m2, StaSsidOffset, StaPassOffset, ApSsidOffset, ApPassOffset);
    SameOutside(m2, m3, ApPassOffset, ApChannelOffset, ApSsidOffset, ApPassOffset);
    SameOutside(m3, m4, StaPassOffset, SensorMaskOffset, ApSsidOffset, ApPassOffset);
    SameOutside(m4, r, ApChannelOffset, StaSsidOffset, ApSsidOffset, ApPassOffset);
    // the STA SSID
    SameOutside(mem, m1, ApSsidOffset, ApPassOffset, StaSsidOffset, StaPassOffset);
    SameOutside(m2, m3, ApPassOffset, ApChannelOffset, StaSsidOffset, StaPassOffset);
    SameOutside(m3, m4, StaPassOffset, SensorMaskOffset, StaSsidOffset, StaPassOffset);
    SameOutside(m4, r, ApChannelOffset, StaSsidOffset, StaSsidOffset, StaPassOffset);
    // the AP password
    SameOutside(mem, m1, ApSsidOffset, ApPassOffset, ApPassOffset, ApChannelOffset);
    SameOutside(m1, m2, StaSsidOffset, StaPassOffset, ApPassOffset, ApChannelOffset);
    SameOutside(m3, m4, StaPassOffset, SensorMaskOffset, ApPassOffset, ApChannelOffset);
    SameOutside(m4, r, ApChannelOffset, StaSsidOffset, ApPassOffset, ApChannelOffset);
    // the STA password, written last
    SameOutside(mem, m1, ApSsidOffset, ApPassOffset, StaPassOffset, SensorMaskOffset);
    SameOutside(m1, m2, StaSsidOffset, StaPassOffset, StaPassOffset, SensorMaskOffset);
    SameOutside(m2, m3, ApPassOffset, ApChannelOffset, StaPassOffset, SensorMaskOffset);
    SameOutside(m4, r, ApChannelOffset, StaSsidOffset, StaPassOffset, SensorMaskOffset);
  }

  /**
   * As intended, the STA SSID read does not depend on the AP SSID: with the
   * inputs of BufferSizeCarriedOver, the stored STA SSID reaches the field.
   */
  lemma IntendedSsidsIndependent(mem: seq<char>, v: NvsView, d: LegacyDefaults)
    requires |mem| == RecordSize && v.Valid() && d.Valid()
    requires OpenReadOnly(v) == EspOk && StaSsidKey !in v.getErr && StaSsidKey !in v.readErr
    requires StaSsidKey in v.strings && |v.strings[StaSsidKey]| <= SsidMaxLen
    ensures var s := v.strings[StaSsidKey];
            CStr(FieldBytes(LoadIntended(mem, v, d, true).mem, StaSsidOffset, SsidMaxLen)) == s[..Min(|s|, SsidMaxLen - 1)]
  {
    IntendedFields(mem, v, d);
    CStrOfPlain(v.strings[StaSsidKey]);
  }

  /* ---------------- store_running_config ---------------- */

  /** The address SYSTEM_STATE_GET(field, buffer) leaves in the pointer buffer: the field's first four bytes. */
  function PointerIn(mem: seq<char>, offset: nat): nat
    requires offset + PointerSize <= |mem|
  {
    Le32Value(mem[offset..offset + PointerSize])
  }

  /**
   * store_running_config as written. Each SYSTEM_STATE_GET(field, buffer)
   * overwrites the local pointer with the field's first four bytes, and
   * store_string then stores the C string found at that address; what
   * memory holds there is the input peek. The channel is copied correctly.
   */
  function StoreAsWritten(v: NvsView, mem: seq<char>, peek: nat -> seq<char>): (r: NvsView)
    requires |mem| == RecordSize
  {
    StoreIntView(StoreStringsAsWritten(v, mem, peek), ApChannelKey, ApChannel(mem)).1
  }

  /** The four string stores of the legacy store_running_config, each through its field's pointer bytes. */
  function StoreStringsAsWritten(v: NvsView, mem: seq<char>, peek: nat -> seq<char>): (r: NvsView)
    requires |mem| == RecordSize
  {
    var v1 := StoreStringView(v, ApSsidKey, CStr(peek(PointerIn(mem, ApSsidOffset)))).1;
    var v2 := StoreStringView(v1, StaSsidKey, CStr(peek(PointerIn(mem, StaSsidOffset)))).1;
    var v3 := StoreStringView(v2, ApPassKey, CStr(peek(PointerIn(mem, ApPassOffset)))).1;
    StoreStringView(v3, StaPassKey, CStr(peek(PointerIn(mem, StaPassOffset)))).1
  }

  /**
   * After the as-written load, the store reads the AP SSID from the heap
   * buffer the load used and freed, not from the record.
   */
  lemma StoreReadsFreedBuffer(mem: seq<char>, v: NvsView, d: LegacyDefaults, heap: int, moved: Option<int>)
    requires |mem| == RecordSize && v.Valid() && d.Valid()
    requires Status(LookupString(v, ApSsidKey, SsidMaxLen + 1)) == EspOk
    ensures PointerIn(LoadConfig(mem, v, d, heap, moved).mem, ApSsidOffset) == Uint32Of(heap)
  {
    PointerCopyAsWritten(mem, v, d, heap, moved);
    var f := FieldBytes(LoadConfig(mem, v, d, heap, moved).mem, ApSsidOffset, SsidMaxLen);
    assert f[..PointerSize] == Le32(heap);
    Le32Unsigned(heap);
  }

  /** An int32_t read from four bytes is in range. */
  lemma Int32AtInRange(mem: seq<char>, offset: nat)
    requires offset + PointerSize <= |mem|
    ensures IsInt32(Int32At(mem, offset))
  {
  }

  /** The store as evidently intended: the C strings of the four fields, then the channel. */
  function StoreIntended(v: NvsView, mem: seq<char>): (r: NvsView)
    requires |mem| == RecordSize
    ensures v.Valid() ==> r.Valid()
  {
    Int32AtInRange(mem, ApChannelOffset);
    var v1 := StoreStringView(v, ApSsidKey, CStr(FieldBytes(mem, ApSsidOffset, SsidMaxLen))).1;
    var v2 := StoreStringView(v1, StaSsidKey, CStr(FieldBytes(mem, StaSsidOffset, SsidMaxLen))).1;
    var v3 := StoreStringView(v2, ApPassKey, CStr(FieldBytes(mem, ApPassOffset, PassMaxLen))).1;
    var v4 := StoreStringView(v3, StaPassKey, CStr(FieldBytes(mem, StaPassOffset, PassMaxLen))).1;
    StoreIntView(v4, ApChannelKey, ApChannel(mem)).1
  }

  /** None of the configuration keys fails to read or to write. */
  predicate NoFaults(v: NvsView)
  {
    forall k :: k in StoreOrder ==> k !in v.getErr && k !in v.readErr && k !in v.setErr
  }

  lemma KeysDistinct()
    ensures ApSsidKey != StaSsidKey && ApSsidKey != ApPassKey && ApSsidKey != StaPassKey && ApSsidKey != ApChannelKey
    ensures StaSsidKey != ApPassKey && StaSsidKey != StaPassKey && ApPassKey != StaPassKey
  {
    assert ApSsidKey[0] != StaSsidKey[0] && ApSsidKey[1] != ApPassKey[1] && ApSsidKey[0] != StaPassKey[0];
    assert ApSsidKey[1] != ApChannelKey[1];
    assert StaSsidKey[0] != ApPassKey[0] && StaSsidKey[1] != StaPassKey[1] && ApPassKey[0] != StaPassKey[0];
  }

  /** What the intended store leaves in a fault-free, initialised partition. */
  lemma IntendedStored(v: NvsView, mem: seq<char>)
    requires v.Valid() && v.initialized && NoFaults(v) && |mem| == RecordSize
    ensures var w := StoreIntended(v, mem);
            && w.Valid() && OpenReadOnly(w) == EspOk && NoFaults(w)
            && ApSsidKey in w.strings && w.strings[ApSsidKey] == CStr(FieldBytes(mem, ApSsidOffset, SsidMaxLen))
            && StaSsidKey in w.strings && w.strings[StaSsidKey] == CStr(FieldBytes(mem, StaSsidOffset, SsidMaxLen))
            && ApPassKey in w.strings && w.strings[ApPassKey] == CStr(FieldBytes(mem, ApPassOffset, PassMaxLen))
            && StaPassKey in w.strings && w.strings[StaPassKey] == CStr(FieldBytes(mem, StaPassOffset, PassMaxLen))
            && ApChannelKey in w.ints && w.ints[ApChannelKey] == ApChannel(mem)
  {
    assert StoreOrder[0] == ApSsidKey && StoreOrder[1] == StaSsidKey && StoreOrder[2] == ApPassKey;
    assert StoreOrder[3] == StaPassKey && StoreOrder[4] == ApChannelKey;
    Int32AtInRange(mem, ApChannelOffset);
    var v4 := IntendedStrings(v, CStr(FieldBytes(mem, ApSsidOffset, SsidMaxLen)), CStr(FieldBytes(mem, StaSsidOffset, SsidMaxLen)),
                           CStr(FieldBytes(mem, ApPassOffset, PassMaxLen)), CStr(FieldBytes(mem, StaPassOffset, PassMaxLen)));
    assert StoreIntended(v, mem) == StoreIntView(v4, ApChannelKey, ApChannel(mem)).1;
  }

  /** The four string stores of the intended save, in their order. */
  function IntendedStrings(v: NvsView, apSsid: string, staSsid: string, apPass: string, staPass: string): (r: NvsView)
    requires v.Valid() && v.initialized && NoFaults(v)
    requires Nul !in apSsid && Nul !in staSsid && Nul !in apPass && Nul !in staPass
    ensures r.Valid() && r.initialized && r.namespaceExists && NoFaults(r) && r.ints == v.ints
    ensures ApSsidKey in r.strings && r.strings[ApSsidKey] == apSsid
    ensures StaSsidKey in r.strings && r.strings[StaSsidKey] == staSsid
    ensures ApPassKey in r.strings && r.strings[ApPassKey] == apPass
    ensures StaPassKey in r.strings && r.strings[StaPassKey] == staPass
  {
    assert StoreOrder[0] == ApSsidKey && StoreOrder[1] == StaSsidKey && StoreOrder[2] == ApPassKey && StoreOrder[3] == StaPassKey;
    KeysDistinct();
    var v1 := StoreStringView(v, ApSsidKey, apSsid).1;
    var v2 := StoreStringView(v1, StaSsidKey, staSsid).1;
    assert v2.strings[ApSsidKey] == apSsid;
    var v3 := StoreStringView(v2, ApPassKey, apPass).1;
    assert v3.strings[ApSsidKey] == apSsid && v3.strings[StaSsidKey] == staSsid;
    StoreStringView(v3, StaPassKey, staPass).1
  }

  /** A field's C string stored and read back through a buffer one byte wider than the field. */
  lemma ReloadIntended(w: NvsView, key: string, stored: string, field: seq<char>, default: string)
    requires w.Valid() && OpenReadOnly(w) == EspOk && key !in w.getErr && key !in w.readErr
    requires key in w.strings && w.strings[key] == stored && Nul !in stored && |stored| <= |field| && 0 < |field|
    ensures CStr(ResolveIntended(field, LookupString(w, key, |field| + 1), default)) == stored[..Min(|stored|, |field| - 1)]
  {
    CStrOfPlain(stored);
  }

  /**
   * The intended store followed by the intended load gives every string
   * field back (cut to the field width minus its NUL) and the channel,
   * clamped to 1..13.
   */
  lemma IntendedStoreThenLoad(v: NvsView, mem: seq<char>, prev: seq<char>, d: LegacyDefaults)
    requires v.Valid() && v.initialized && NoFaults(v) && d.Valid()
    requires |mem| == RecordSize && |prev| == RecordSize
    ensures var r := LoadIntended(prev, StoreIntended(v, mem), d, true).mem;
            && (var s := CStr(FieldBytes(mem, ApSsidOffset, SsidMaxLen));
                CStr(FieldBytes(r, ApSsidOffset, SsidMaxLen)) == s[..Min(|s|, SsidMaxLen - 1)])
            && (var s := CStr(FieldBytes(mem, StaSsidOffset, SsidMaxLen));
                CStr(FieldBytes(r, StaSsidOffset, SsidMaxLen)) == s[..Min(|s|, SsidMaxLen - 1)])
            && (var s := CStr(FieldBytes(mem, ApPassOffset, PassMaxLen));
                CStr(FieldBytes(r, ApPassOffset, PassMaxLen)) == s[..Min(|s|, PassMaxLen - 1)])
            && (var s := CStr(FieldBytes(mem, StaPassOffset, PassMaxLen));
                CStr(FieldBytes(r, StaPassOffset, PassMaxLen)) == s[..Min(|s|, PassMaxLen - 1)])
            && ApChannel(r) == if ChannelMin <= ApChannel(mem) <= ChannelMax then ApChannel(mem) else FallbackChannel
  {
    IntendedStored(v, mem);
    ReloadAll(StoreIntended(v, mem), mem, prev, d);
  }

  /** The intended load from a fault-free partition holding the four C strings of mem and its channel. */
  lemma ReloadAll(w: NvsView, mem: seq<char>, prev: seq<char>, d: LegacyDefaults)
    requires w.Valid() && OpenReadOnly(w) == EspOk && NoFaults(w) && d.Valid()
    requires |mem| == RecordSize && |prev| == RecordSize
    requires ApSsidKey in w.strings && w.strings[ApSsidKey] == CStr(FieldBytes(mem, ApSsidOffset, SsidMaxLen))
    requires StaSsidKey in w.strings && w.strings[StaSsidKey] == CStr(FieldBytes(mem, StaSsidOffset, SsidMaxLen))
    requires ApPassKey in w.strings && w.strings[ApPassKey] == CStr(FieldBytes(mem, ApPassOffset, PassMaxLen))
    requires StaPassKey in w.strings && w.strings[StaPassKey] == CStr(FieldBytes(mem, StaPassOffset, PassMaxLen))
    requires ApChannelKey in w.ints && w.ints[ApChannelKey] == ApChannel(mem)
    ensures var r := LoadIntended(prev, w, d, true).mem;
            && (var s := CStr(FieldBytes(mem, ApSsidOffset, SsidMaxLen));
                CStr(FieldBytes(r, ApSsidOffset, SsidMaxLen)) == s[..Min(|s|, SsidMaxLen - 1)])
            && (var s := CStr(FieldBytes(mem, StaSsidOffset, SsidMaxLen));
                CStr(FieldBytes(r, StaSsidOffset, SsidMaxLen)) == s[..Min(|s|, SsidMaxLen - 1)])
            && (var s := CStr(FieldBytes(mem, ApPassOffset, PassMaxLen));
                CStr(FieldBytes(r, ApPassOffset, PassMaxLen)) == s[..Min(|s|, PassMaxLen - 1)])
            && (var s := CStr(FieldBytes(mem, StaPassOffset, PassMaxLen));
                CStr(FieldBytes(r, StaPassOffset, PassMaxLen)) == s[..Min(|s|, PassMaxLen - 1)])
            && ApChannel(r) == if ChannelMin <= ApChannel(mem) <= ChannelMax then ApChannel(mem) else FallbackChannel
  {
    assert StoreOrder[0] == ApSsidKey && StoreOrder[1] == StaSsidKey;
    assert StoreOrder[2] == ApPassKey && StoreOrder[3] == StaPassKey;
    IntendedFields(prev, w, d);
    ReloadStored(w, ApSsidKey, mem, prev, ApSsidOffset, SsidMaxLen, d.apSsid);
    ReloadStored(w, StaSsidKey, mem, prev, StaSsidOffset, SsidMaxLen, d.staSsid);
    ReloadStored(w, ApPassKey, mem, prev, ApPassOffset, PassMaxLen, d.apPass);
    ReloadStored(w, StaPassKey, mem, prev, StaPassOffset, PassMaxLen, d.staPass);
    ChannelClampedIntended(prev, w, d);
  }

  /** One field's C string, stored under key, read back into a field of the same width. */
  lemma ReloadStored(w: NvsView, key: string, mem: seq<char>, prev: seq<char>, offset: nat, width: nat, default: string)
    requires w.Valid() && OpenReadOnly(w) == EspOk && key !in w.getErr && key !in w.readErr
    requires 0 < width && offset + width <= |mem| && offset + width <= |prev|
    requires key in w.strings && w.strings[key] == CStr(FieldBytes(mem, offset, width))
    ensures var s := CStr(FieldBytes(mem, offset, width));
            CStr(ResolveIntended(FieldBytes(prev, offset, width), LookupString(w, key, width + 1), default)) == s[..Min(|s|, width - 1)]
  {
    ReloadIntended(w, key, CStr(FieldBytes(mem, offset, width)), FieldBytes(prev, offset, width), default);
  }

  /** The channel step of the intended load, on a partition holding a channel. */
  lemma ChannelClampedIntended(prev: seq<char>, w: NvsView, d: LegacyDefaults)
    requires |prev| == RecordSize && w.Valid() && d.Valid()
    requires OpenReadOnly(w) == EspOk && ApChannelKey in w.ints && ApChannelKey !in w.getErr
    ensures var c := w.ints[ApChannelKey];
            ApChannel(LoadIntended(prev, w, d, true).mem) == if ChannelMin <= c <= ChannelMax then c else FallbackChannel
  {
    var c := w.ints[ApChannelKey];
    Le32RoundTrip(c);
    Le32RoundTrip(FallbackChannel);
  }

  /* ---------------- the record ---------------- */

  /** The effect of nvs_initialize on the partition, given the outcomes of the two nvs_flash_init calls. */
  function InitView(v: NvsView, firstInit: EspErr, secondInit: EspErr): NvsView
  {
    if firstInit == NvsNoFreePages || firstInit == NvsNewVersionFound then
      v.(strings := map[], ints := map[], namespaceExists := false, initialized := secondInit == EspOk)
    else v.(initialized := v.initialized || firstInit == EspOk)
  }

  /** The global system_state of the legacy tree, as the block of bytes the memcpy macros write. */
  class LegacySystemState {
    const mem: array<char>

    predicate Valid()
      reads this
    {
      mem.Length == RecordSize
    }

    /** The static initialiser: every byte zero. */
    constructor()
      ensures Valid() && fresh(mem) && mem[..] == ZeroBytes()
    {
      mem := new char[RecordSize](_ => Nul);
    }

    /** system_state_set(field, value, size): memcpy of |value| bytes into the record at a field's offset. */
    method Set(offset: nat, value: seq<char>)
      requires Valid() && offset + |value| <= RecordSize
      modifies mem
      ensures mem[..] == Copy(old(mem[..]), offset, value)
    {
      forall i | 0 <= i < |value| {
        mem[offset + i] := value[i];
      }
      assert mem[..] == old(mem[..])[..offset] + value + old(mem[..])[offset + |value|..];
    }

    /** memset(&system_state, 0, sizeof(system_state_t)). */
    method Clear()
      requires Valid()
      modifies mem
      ensures mem[..] == ZeroBytes()
    {
      forall i | 0 <= i < RecordSize {
        mem[i] := Nul;
      }
    }

    /**
     * read_running_config as written, given the addresses malloc and
     * realloc return (None: realloc returned NULL).
     */
    method ReadRunningConfig(nvs: NvsFlash, d: LegacyDefaults, heap: int, moved: Option<int>)
      requires Valid() && nvs.Valid() && d.Valid()
      modifies mem, nvs
      ensures nvs.Valid()
      ensures Loaded(mem[..], nvs.View()) == LoadConfig(old(mem[..]), old(nvs.View()), d, heap, moved)
    {
      ReadSsidFields(nvs, d, heap);
      if moved.None? {
        return;
      }
      ReadPassFields(nvs, d, moved.value);
      ReadChannel(nvs, d);
    }

    /** The two SSID reads: malloc(SSID_MAX_LEN + 1), buffer_size set once. */
    method ReadSsidFields(nvs: NvsFlash, d: LegacyDefaults, heap: int)
      requires Valid() && nvs.Valid() && d.Valid()
      modifies mem
      ensures mem[..] == LoadSsids(old(mem[..]), nvs.View(), d, heap)
    {
      var bufferSize := SsidMaxLen + 1;
      var buffer := new char[bufferSize];
      var len := ReadField(nvs, ApSsidKey, buffer, bufferSize, ApSsidOffset, SsidMaxLen, heap, d.apSsid);
      bufferSize := len;
      forall i | 0 <= i < bufferSize {
        buffer[i] := Nul;
      }
      len := ReadField(nvs, StaSsidKey, buffer, bufferSize, StaSsidOffset, SsidMaxLen, heap, d.staSsid);
    }

    /** The two password reads: realloc(PASS_MAX_LEN + 1) to address heap, buffer_size set once. */
    method ReadPassFields(nvs: NvsFlash, d: LegacyDefaults, heap: int)
      requires Valid() && nvs.Valid() && d.Valid()
      modifies mem
      ensures mem[..] == LoadPasswords(old(mem[..]), nvs.View(), d, heap)
    {
      var bufferSize := PassMaxLen + 1;
      var buffer := new char[bufferSize];
      var len := ReadField(nvs, ApPassKey, buffer, bufferSize, ApPassOffset, PassMaxLen, heap, d.apPass);
      bufferSize := len;
      forall i | 0 <= i < bufferSize {
        buffer[i] := Nul;
      }
      len := ReadField(nvs, StaPassKey, buffer, bufferSize, StaPassOffset, PassMaxLen, heap, d.staPass);
    }

    /**
     * One read_string into the shared buffer and the system_state_set that
     * follows it: the buffer pointer on ESP_OK, the default on NOT_FOUND.
     */
    method ReadField(nvs: NvsFlash, key: string, buffer: array<char>, bufferSize: nat, offset: nat, width: nat,
                     heap: int, default: string) returns (len: nat)
      requires Valid() && nvs.Valid() && bufferSize <= buffer.Length && buffer != mem
      requires offset + width <= RecordSize && PointerSize <= width && |default| < width
      modifies mem, buffer
      ensures len == SizeAfter(LookupString(nvs.View(), key, bufferSize), bufferSize)
      ensures mem[..] == SetFromRead(old(mem[..]), offset, width, LookupString(nvs.View(), key, bufferSize), heap, default)
    {
      var err;
      err, len := nvs.ReadString(key, buffer, bufferSize);
      if err == EspOk {
        Set(offset, Le32(heap));
      } else if err == NvsNotFound {
        Set(offset, default + [Nul]);
      }
    }

    /** The channel read through buffer_int, the write-back of the default, and the 1..13 check. */
    method ReadChannel(nvs: NvsFlash, d: LegacyDefaults)
      requires Valid() && nvs.Valid() && d.Valid()
      modifies mem, nvs
      ensures nvs.Valid()
      ensures Loaded(mem[..], nvs.View()) == LoadChannel(old(mem[..]), old(nvs.View()), d)
    {
      var bufferInt := 0;
      var err;
      err, bufferInt := nvs.ReadInt(ApChannelKey, bufferInt);
      if err == EspOk {
        Set(ApChannelOffset, Le32(bufferInt));
      } else if err == NvsNotFound {
        var ignored := nvs.StoreInt(ApChannelKey, d.apChannel);
        bufferInt := d.apChannel;
        Set(ApChannelOffset, Le32(bufferInt));
      }
      if bufferInt < ChannelMin || bufferInt > ChannelMax {
        bufferInt := FallbackChannel;
        Set(ApChannelOffset, Le32(bufferInt));
      }
    }

    /**
     * store_running_config as written: five stores in the order as, ss, ap,
     * sp, ac, every result ignored; the strings come from the addresses the
     * pointer copies leave (peek gives the memory found at an address).
     */
    method StoreRunningConfig(nvs: NvsFlash, peek: nat -> seq<char>)
      requires Valid() && nvs.Valid()
      modifies nvs
      ensures nvs.Valid()
      ensures nvs.View() == StoreAsWritten(old(nvs.View()), mem[..], peek)
      ensures nvs.setCalls == old(nvs.setCalls) + if old(nvs.initialized) then StoreOrder else []
    {
      assert mem as object != nvs && this as object != nvs;
      StoreStrings(nvs, peek);
      var bufferInt := ApChannel(mem[..]);
      Int32AtInRange(mem[..], ApChannelOffset);
      var ignored := nvs.StoreInt(ApChannelKey, bufferInt);
    }

    /** The four SYSTEM_STATE_GET copies into buffer, each followed by store_string of what buffer points at. */
    method StoreStrings(nvs: NvsFlash, peek: nat -> seq<char>)
      requires Valid() && nvs.Valid()
      modifies nvs
      ensures nvs.Valid()
      ensures nvs.View() == StoreStringsAsWritten(old(nvs.View()), mem[..], peek)
      ensures nvs.setCalls == old(nvs.setCalls) + if old(nvs.initialized) then StoreOrder[..4] else []
    {
      assert mem as object != nvs && this as object != nvs;
      var buffer := PointerIn(mem[..], ApSsidOffset);
      var ignored := nvs.StoreString(ApSsidKey, CStr(peek(buffer)));
      buffer := PointerIn(mem[..], StaSsidOffset);
      ignored := nvs.StoreString(StaSsidKey, CStr(peek(buffer)));
      buffer := PointerIn(mem[..], ApPassOffset);
      ignored := nvs.StoreString(ApPassKey, CStr(peek(buffer)));
      buffer := PointerIn(mem[..], StaPassOffset);
      ignored := nvs.StoreString(StaPassKey, CStr(peek(buffer)));
    }
  }

  /**
   * system_initialize of the legacy tree: zero the record, nvs_initialize
   * (aborting through ESP_ERROR_CHECK), then read_running_config.
   */
  method SystemInitialize(st: LegacySystemState, nvs: NvsFlash, d: LegacyDefaults, firstInit: EspErr, secondInit: EspErr,
                          heap: int, moved: Option<int>) returns (aborted: bool)
    requires st.Valid() && nvs.Valid() && d.Valid()
    modifies st.mem, nvs
    ensures nvs.Valid()
    ensures aborted ==> st.mem[..] == ZeroBytes()
    ensures !aborted ==> Loaded(st.mem[..], nvs.View()) == LoadConfig(ZeroBytes(), InitView(old(nvs.View()), firstInit, secondInit), d, heap, moved)
  {
    st.Clear();
    aborted := StateManager.NvsInitialize(nvs, firstInit, secondInit);
    if aborted {
      return;
    }
    assert nvs.View() == InitView(old(nvs.View()), firstInit, secondInit);
    st.ReadRunningConfig(nvs, d, heap, moved);
  }
}
