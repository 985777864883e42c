/**
 * The thermistor sampling of main/ntc_adc.c: the ADC scan pattern built from
 * the sensor mask, and the per-channel sample table the conversion task fills
 * and the display reads.
 */
module NtcAdc {
  import opened Esp
  import opened Bits

  /** SENSOR_MAX_COUNT: the number of ADC1 channels the firmware samples. */
  const SensorMaxCount := 8

  /** The size of the stack buffer adc_continuous_read fills. */
  const ReadBufferSize := 256

  /** sizeof(adc_digi_output_data_t) on the ESP32: one 16-bit word per conversion. */
  const SampleSize := 2

  /** ADC_ATTEN_DB_0, ADC_UNIT_1 and ADC_BITWIDTH_12. */
  const AttenDb0 := 0
  const Unit1 := 0
  const BitWidth12 := 12

  /** adc_digi_pattern_config_t: one entry of the conversion pattern. */
  datatype PatternConfig = PatternConfig(atten: int, channel: int, unit: int, bitWidth: int)

  /** The zero-initialised entry `= {0}` leaves in the unused slots. */
  const ZeroPattern := PatternConfig(0, 0, 0, 0)

  /** The entry the initialisation loop writes for one channel. */
  function ChannelPattern(channel: int): PatternConfig
  {
    PatternConfig(AttenDb0, channel, Unit1, BitWidth12)
  }

  /**
   * The channels below n whose bit is set in the mask, in ascending order.
   * The mask is the int8_t of the record, promoted with its sign, so Bit
   * reads it in two's complement exactly as `sensor_mask & (1 << i)` does.
   */
  function Selected(mask: int, n: nat): (r: seq<int>)
    requires n <= SensorMaxCount
    ensures |r| <= n
    ensures forall k :: 0 <= k < |r| ==> 0 <= r[k] < n
  {
    if n == 0 then []
    else Selected(mask, n - 1) + (if Bit(mask, n - 1) then [n - 1] else [])
  }

  /** The set of channels below n whose bit is set. */
  function SelectedSet(mask: int, n: nat): set<int>
  {
    set c | 0 <= c < n && Bit(mask, c)
  }

  /**
   * The selected channels are strictly ascending and are exactly the channels
   * whose bit is set: entry k is the k-th set channel.
   */
  lemma {:induction false} SelectedIsAscendingSetBits(mask: int, n: nat)
    requires n <= SensorMaxCount
    ensures forall j, k :: 0 <= j < k < |Selected(mask, n)| ==> Selected(mask, n)[j] < Selected(mask, n)[k]
    ensures forall c :: c in Selected(mask, n) <==> 0 <= c < n && Bit(mask, c)
  {
    if n > 0 {
      SelectedIsAscendingSetBits(mask, n - 1);
      var p := Selected(mask, n - 1);
      var r := Selected(mask, n);
      assert forall k :: 0 <= k < |p| ==> r[k] == p[k];
    }
  }

  /** Raising the bound by one adds channel n - 1 exactly when its bit is set. */
  lemma SelectedSetStep(mask: int, n: nat)
    requires n > 0
    ensures SelectedSet(mask, n) == SelectedSet(mask, n - 1) + (if Bit(mask, n - 1) then {n - 1} else {})
  {
  }

  /** The pattern count is the number of set bits among bits 0..7 of the mask. */
  lemma {:induction false} SelectedCountsSetBits(mask: int, n: nat)
    requires n <= SensorMaxCount
    ensures |Selected(mask, n)| == |SelectedSet(mask, n)|
  {
    if n > 0 {
      SelectedCountsSetBits(mask, n - 1);
      SelectedSetStep(mask, n);
      var prev := SelectedSet(mask, n - 1);
      assert n - 1 !in prev;
    }
  }

  /**
   * The pattern loop of ntc_adc_initialize: for each channel i < 8 whose mask
   * bit is set, the next free entry gets attenuation 0 dB, channel i, unit 1
   * and 12-bit width; the count of entries filled becomes pattern_num.
   */
  method BuildPatterns(sensorMask: int) returns (patterns: array<PatternConfig>, count: int)
    requires -128 <= sensorMask < 128
    ensures fresh(patterns) && patterns.Length == SensorMaxCount
    ensures count == |Selected(sensorMask, SensorMaxCount)|
    ensures forall k :: 0 <= k < count ==> patterns[k] == ChannelPattern(Selected(sensorMask, SensorMaxCount)[k])
    ensures forall k :: count <= k < SensorMaxCount ==> patterns[k] == ZeroPattern
  {
    patterns := new PatternConfig[SensorMaxCount](_ => ZeroPattern);
    count := 0;
    var i := 0;
    while i < SensorMaxCount
      invariant 0 <= i <= SensorMaxCount
      invariant count == |Selected(sensorMask, i)| <= i
      invariant forall k :: 0 <= k < count ==> patterns[k] == ChannelPattern(Selected(sensorMask, i)[k])
      invariant forall k :: count <= k < SensorMaxCount ==> patterns[k] == ZeroPattern
    {
      if Bit(sensorMask, i) {
        patterns[count] := ChannelPattern(i);
        count := count + 1;
      }
      i := i + 1;
    }
  }

  /** The channel field of a type-1 conversion word stored little-endian as lo, hi: its top 4 bits. */
  function SampleChannel(lo: Byte, hi: Byte): (c: int)
    ensures 0 <= c < 16
  {
    hi / 16
  }

  /** The data field of the same word: its low 12 bits. */
  function SampleData(lo: Byte, hi: Byte): (d: int)
    ensures 0 <= d < 0x1000
  {
    lo + 256 * (hi % 16)
  }

  /** The two bit fields together make up the whole 16-bit word. */
  lemma SampleFieldsCoverWord(lo: Byte, hi: Byte)
    ensures SampleData(lo, hi) + 0x1000 * SampleChannel(lo, hi) == lo + 256 * hi
  {
  }

  /** The number of conversions the loop visits for a read of readSize bytes. */
  function SampleCount(readSize: nat): nat
  {
    (readSize + SampleSize - 1) / SampleSize
  }

  /** The loop walks whole conversions: it stops exactly after SampleCount of them. */
  lemma SampleCountStep(readSize: nat, k: nat)
    requires k <= SampleCount(readSize)
    ensures 2 * k < readSize ==> k + 1 <= SampleCount(readSize)
    ensures 2 * k >= readSize ==> k == SampleCount(readSize)
  {
  }

  /** The sample table after applying the first k conversions of the buffer in order. */
  function Applied(table: seq<int>, buffer: seq<Byte>, k: nat): (r: seq<int>)
    requires |table| == SensorMaxCount && 2 * k <= |buffer|
    ensures |r| == SensorMaxCount
    ensures (forall c :: 0 <= c < SensorMaxCount && 0 <= table[c] < 0x1_0000 ==> 0 <= r[c] < 0x1_0000)
  {
    if k == 0 then table
    else
      var prev := Applied(table, buffer, k - 1);
      var channel := SampleChannel(buffer[2 * k - 2], buffer[2 * k - 1]);
      if channel >= SensorMaxCount then prev
      else prev[channel := SampleData(buffer[2 * k - 2], buffer[2 * k - 1])]
  }

  /** One more conversion: the update the loop body makes to the table. */
  lemma AppliedStep(table: seq<int>, buffer: seq<Byte>, k: nat, before: seq<int>, after: seq<int>)
    requires |table| == SensorMaxCount && 2 * k + 2 <= |buffer|
    requires before == Applied(table, buffer, k)
    requires var channel := SampleChannel(buffer[2 * k], buffer[2 * k + 1]);
             after == if channel >= SensorMaxCount then before
                      else before[channel := SampleData(buffer[2 * k], buffer[2 * k + 1])]
    ensures after == Applied(table, buffer, k + 1)
  {
  }

  /** The data of the last of the first k conversions that names channel c, if any. */
  function LastSampleFor(buffer: seq<Byte>, k: nat, c: int): Option<int>
    requires 2 * k <= |buffer|
  {
    if k == 0 then None
    else if SampleChannel(buffer[2 * k - 2], buffer[2 * k - 1]) == c then
      Some(SampleData(buffer[2 * k - 2], buffer[2 * k - 1]))
    else LastSampleFor(buffer, k - 1, c)
  }

  /**
   * Each table entry ends up holding the last conversion read for its
   * channel, or keeps its value when none was read; conversions naming a
   * channel of 8 or more change nothing.
   */
  lemma {:induction false} AppliedKeepsLastSample(table: seq<int>, buffer: seq<Byte>, k: nat, c: int)
    requires |table| == SensorMaxCount && 2 * k <= |buffer| && 0 <= c < SensorMaxCount
    ensures Applied(table, buffer, k)[c] == match LastSampleFor(buffer, k, c)
                                            case None => table[c]
                                            case Some(d) => d
  {
    if k > 0 {
      AppliedKeepsLastSample(table, buffer, k - 1, c);
    }
  }

  /** The statics of ntc_adc.c: the sample table channel_data (uint16_t[SENSOR_MAX_COUNT]). */
  class SampleTable {
    var channelData: array<int>

    predicate Valid()
      reads this, channelData
    {
      channelData.Length == SensorMaxCount
      && forall c :: 0 <= c < SensorMaxCount ==> 0 <= channelData[c] < 0x1_0000
    }

    /** The table starts zeroed. */
    constructor()
      ensures Valid() && fresh(channelData)
      ensures forall c :: 0 <= c < SensorMaxCount ==> channelData[c] == 0
    {
      channelData := new int[SensorMaxCount](_ => 0);
    }

    /**
     * ntc_get_channel_data: 0 for an index of SENSOR_MAX_COUNT or more, the
     * stored sample otherwise (the mutex wait never times out).
     */
    method GetChannelData(channelIndex: Byte) returns (sample: int)
      requires Valid()
      ensures 0 <= sample < 0x1_0000
      ensures channelIndex >= SensorMaxCount ==> sample == 0
      ensures channelIndex < SensorMaxCount ==> sample == channelData[channelIndex]
    {
      if channelIndex >= SensorMaxCount {
        return 0;
      }
      sample := channelData[channelIndex];
    }

    /**
     * One pass of ntc_adc_process_data's loop: when the read succeeds, the
     * buffer is walked one conversion at a time up to readSize, and each
     * conversion naming a channel below SENSOR_MAX_COUNT stores its data
     * in that channel's entry.
     */
    method ProcessRead(ret: EspErr, buffer: seq<Byte>, readSize: int)
      requires Valid() && |buffer| == ReadBufferSize && 0 <= readSize <= ReadBufferSize
      modifies channelData
      ensures Valid()
      ensures ret != EspOk ==> channelData[..] == old(channelData[..])
      ensures ret == EspOk ==> channelData[..] == Applied(old(channelData[..]), buffer, SampleCount(readSize))
    {
      if ret != EspOk {
        return;
      }
      var i := 0;
      ghost var k: nat := 0;
      ghost var t0 := channelData[..];
      while i < readSize
        invariant i == SampleSize * k && k <= SampleCount(readSize)
        invariant channelData[..] == Applied(t0, buffer, k)
        invariant Valid()
      {
        SampleCountStep(readSize, k);
        ghost var before := channelData[..];
        var channel := SampleChannel(buffer[i], buffer[i + 1]);
        if channel < SensorMaxCount {
          channelData[channel] := SampleData(buffer[i], buffer[i + 1]);
        }
        AppliedStep(t0, buffer, k, before, channelData[..]);
        i := i + SampleSize;
        k := k + 1;
      }
      SampleCountStep(readSize, k);
    }
  }
}
