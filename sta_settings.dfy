/**
 * The station-settings page of sta-settings/src/main.js: the sensor-channel
 * radio pairs, the bit mask they encode, and the form fillForm fills from
 * the device's configuration.
 */
module StaSettings {
  import opened Esp
  import opened Text
  import opened Bits

  /** The number of radio pairs fillForm sets: sensor_ch0 to sensor_ch5. */
  const RadioPairs := 6

  /** The widest shift `1 << index` makes without reaching the sign bit of a 32-bit integer. */
  const MaxChannel := 31

  /** A radio input named sensor_ch<channel>, with its value attribute and whether it is checked. */
  datatype Radio = Radio(channel: nat, value: string, checked: bool)

  /**
   * The configuration object fillForm receives; a field missing from the
   * JSON is None. The page reads sensor_mask as a number.
   */
  datatype Config = Config(
    staSsid: Option<string>,
    staPass: Option<string>,
    apSsid: Option<string>,
    apPass: Option<string>,
    sensorMask: Option<int>)

  // ---------------------------------------------------------------------
  // Encoding: the radios to the mask
  // ---------------------------------------------------------------------

  /** The radios the `:checked` selector returns, in document order. */
  function Checked(rs: seq<Radio>): (r: seq<Radio>)
    ensures |r| <= |rs|
    ensures forall k :: 0 <= k < |r| ==> r[k].checked
  {
    if rs == [] then []
    else
      var last := rs[|rs| - 1];
      Checked(rs[..|rs| - 1]) + (if last.checked then [last] else [])
  }

  /** The selector keeps exactly the checked radios. */
  lemma {:induction false} CheckedMembers(rs: seq<Radio>)
    ensures forall x :: x in Checked(rs) <==> x in rs && x.checked
  {
    if rs != [] {
      var init := rs[..|rs| - 1];
      CheckedMembers(init);
      assert rs == init + [rs[|rs| - 1]];
    }
  }

  /** bitmask | (1 << i) for a non-negative mask: bit i set, all others kept. */
  function OrBit(mask: nat, i: nat): nat
  {
    if Bit(mask, i) then mask else mask + Pow2(i)
  }

  /** The mask parseRadios accumulates over the given radios: the ON ones contribute their bit. */
  function ParsedMask(rs: seq<Radio>): (r: nat)
    ensures (forall k :: 0 <= k < |rs| ==> rs[k].value != "1") ==> r == 0
  {
    if rs == [] then 0
    else
      var m := ParsedMask(rs[..|rs| - 1]);
      var last := rs[|rs| - 1];
      if last.value == "1" then OrBit(m, last.channel) else m
  }

  /** The channels of the radios with value '1' among rs. */
  function OnChannels(rs: seq<Radio>): set<nat>
  {
    set x | x in rs && x.value == "1" :: x.channel
  }

  /** Every radio names a channel below 31. */
  predicate ChannelsInRange(rs: seq<Radio>)
  {
    forall k :: 0 <= k < |rs| ==> rs[k].channel < MaxChannel
  }

  /** The accumulated mask has exactly the bits of the ON radios' channels. */
  lemma {:induction false} ParsedMaskIsOnChannels(rs: seq<Radio>)
    requires ChannelsInRange(rs)
    ensures ParsedMask(rs) == BitsValue(OnChannels(rs), MaxChannel)
  {
    if rs == [] {
      assert OnChannels(rs) == {};
      BitsValueEmpty(MaxChannel);
    } else {
      var init, last := rs[..|rs| - 1], rs[|rs| - 1];
      ParsedMaskIsOnChannels(init);
      var s := OnChannels(init);
      assert rs == init + [last];
      if last.value == "1" {
        assert OnChannels(rs) == s + {last.channel};
        BitOfBitsValue(s, MaxChannel, last.channel);
        BitsValueInsert(s, MaxChannel, last.channel);
      } else {
        assert OnChannels(rs) == s;
      }
    }
  }

  /** The checked ON radios' channels, whatever the order of the radios. */
  lemma CheckedOnChannels(rs: seq<Radio>)
    ensures OnChannels(Checked(rs)) == set x | x in rs && x.checked && x.value == "1" :: x.channel
  {
    CheckedMembers(rs);
  }

  /**
   * Bit i of the mask parseRadios computes is set exactly when some checked
   * radio of channel i has the value '1'.
   */
  lemma ParsedMaskBits(rs: seq<Radio>, i: nat)
    requires ChannelsInRange(rs) && i < MaxChannel
    ensures Bit(ParsedMask(Checked(rs)), i) <==>
              exists k :: 0 <= k < |rs| && rs[k].checked && rs[k].value == "1" && rs[k].channel == i
  {
    var c := Checked(rs);
    CheckedMembers(rs);
    assert ChannelsInRange(c) by {
      forall k | 0 <= k < |c| ensures c[k].channel < MaxChannel {
        assert c[k] in rs;
      }
    }
    ParsedMaskIsOnChannels(c);
    BitOfBitsValue(OnChannels(c), MaxChannel, i);
    CheckedOnChannels(rs);
    if i in OnChannels(c) {
      var x :| x in rs && x.checked && x.value == "1" && x.channel == i;
      var k :| 0 <= k < |rs| && rs[k] == x;
    }
  }

  // ---------------------------------------------------------------------
  // Decoding: the mask to the radios
  // ---------------------------------------------------------------------

  /** The first radio of channel c with value v in document order, as querySelector finds it. */
  function First(rs: seq<Radio>, c: nat, v: string): (r: Option<nat>)
    ensures r.Some? ==> r.value < |rs| && rs[r.value].channel == c && rs[r.value].value == v
    ensures r.None? ==> forall k :: 0 <= k < |rs| ==> !(rs[k].channel == c && rs[k].value == v)
  {
    if rs == [] then None
    else match First(rs[..|rs| - 1], c, v)
      case Some(k) => Some(k)
      case None => if rs[|rs| - 1].channel == c && rs[|rs| - 1].value == v then Some(|rs| - 1) else None
  }

  /** Two radio lists with the same names and values in the same order. */
  predicate SameShape(rs: seq<Radio>, ts: seq<Radio>)
  {
    |rs| == |ts| && forall k :: 0 <= k < |rs| ==> rs[k].channel == ts[k].channel && rs[k].value == ts[k].value
  }

  /** Which radios are checked does not change which one querySelector finds. */
  lemma {:induction false} FirstSameShape(rs: seq<Radio>, ts: seq<Radio>, c: nat, v: string)
    requires SameShape(rs, ts)
    ensures First(rs, c, v) == First(ts, c, v)
  {
    if rs != [] {
      FirstSameShape(rs[..|rs| - 1], ts[..|ts| - 1], c, v);
    }
  }

  /**
   * Setting `checked` on radio k: checking it unchecks every other radio of
   * its group (the same name); unchecking it touches nothing else.
   */
  function SetChecked(rs: seq<Radio>, k: nat, on: bool): (r: seq<Radio>)
    requires k < |rs|
    ensures |r| == |rs|
  {
    if on then
      seq(|rs|, j requires 0 <= j < |rs| =>
        if j == k then rs[j].(checked := true)
        else if rs[j].channel == rs[k].channel then rs[j].(checked := false)
        else rs[j])
    else rs[k := rs[k].(checked := false)]
  }

  /** What setting `checked` does: radio k takes the new state, and only checking it touches its group. */
  lemma SetCheckedEffect(rs: seq<Radio>, k: nat, on: bool)
    requires k < |rs|
    ensures var r := SetChecked(rs, k, on);
            SameShape(r, rs) && r[k].checked == on
            && (forall j :: 0 <= j < |rs| && j != k ==>
                  r[j].checked == if on && rs[j].channel == rs[k].channel then false else rs[j].checked)
            && (forall j :: 0 <= j < |rs| && rs[j].channel != rs[k].channel ==> r[j] == rs[j])
  {
  }

  /** Both radios of pair c exist on the page. */
  predicate HasPair(rs: seq<Radio>, c: nat)
  {
    First(rs, c, "1").Some? && First(rs, c, "0").Some?
  }

  /** The radio of pair c fillForm leaves checked: the ON radio when on holds, the OFF one otherwise. */
  function Picked(rs: seq<Radio>, c: nat, on: bool): nat
    requires HasPair(rs, c)
  {
    if on then First(rs, c, "1").value else First(rs, c, "0").value
  }

  /**
   * One iteration of fillForm's loop for pair c: when both radios exist, the
   * ON radio gets `checked = on` and the OFF radio `checked = !on`; so the
   * picked radio is the only checked one of its group.
   */
  function SetPair(rs: seq<Radio>, c: nat, on: bool): (r: seq<Radio>)
    ensures |r| == |rs|
  {
    var onRadio, offRadio := First(rs, c, "1"), First(rs, c, "0");
    if onRadio.Some? && offRadio.Some? then
      SetChecked(SetChecked(rs, onRadio.value, on), offRadio.value, !on)
    else rs
  }

  /**
   * What one iteration does: in the group of pair c, when both radios
   * exist, only the picked radio is left checked; nothing else changes.
   */
  lemma SetPairEffect(rs: seq<Radio>, c: nat, on: bool)
    ensures var r := SetPair(rs, c, on);
            SameShape(r, rs)
            && (!HasPair(rs, c) ==> r == rs)
            && (HasPair(rs, c) ==> forall j :: 0 <= j < |rs| && rs[j].channel == c ==>
                  r[j].checked == (j == Picked(rs, c, on)))
            && (forall j :: 0 <= j < |rs| && rs[j].channel != c ==> r[j] == rs[j])
  {
    if HasPair(rs, c) {
      var a := SetChecked(rs, First(rs, c, "1").value, on);
      SetCheckedEffect(rs, First(rs, c, "1").value, on);
      SetCheckedEffect(a, First(rs, c, "0").value, !on);
    }
  }

  /** The value the mask test reads: an absent sensor_mask is undefined, and undefined & x is 0. */
  function MaskNumber(v: Option<int>): int
  {
    if v.Some? then v.value else 0
  }

  /**
   * The radios r after the first n iterations of fillForm's loop over the
   * page r0: in each group of a pair below n that exists on the page only
   * the picked radio is checked, the ON one exactly when c is in the set
   * of channels to switch on; every other radio is as it was.
   */
  predicate PairsFilled(r0: seq<Radio>, r: seq<Radio>, on: set<nat>, n: nat)
  {
    SameShape(r, r0) && forall j :: 0 <= j < |r0| ==> RadioFilled(r0, r, on, n, j)
  }

  /** Radio j of the page r0 as the first n iterations leave it in r. */
  predicate RadioFilled(r0: seq<Radio>, r: seq<Radio>, on: set<nat>, n: nat, j: int)
    requires 0 <= j < |r0| && SameShape(r, r0)
  {
    if r0[j].channel < n && HasPair(r0, r0[j].channel)
    then r[j].checked == (j == Picked(r0, r0[j].channel, r0[j].channel in on))
    else r[j] == r0[j]
  }

  /** One more iteration of the loop sets pair m - 1 and fills one more pair. */
  lemma SetPairFills(r0: seq<Radio>, r: seq<Radio>, on: set<nat>, m: nat)
    requires m > 0 && PairsFilled(r0, r, on, m - 1)
    ensures PairsFilled(r0, SetPair(r, m - 1, m - 1 in on), on, m)
  {
    var n := m - 1;
    var next := SetPair(r, n, n in on);
    SetPairEffect(r, n, n in on);
    FirstSameShape(r, r0, n, "1");
    FirstSameShape(r, r0, n, "0");
    forall j | 0 <= j < |r0|
      ensures RadioFilled(r0, next, on, m, j)
    {
      assert RadioFilled(r0, r, on, n, j);
      if r0[j].channel != n {
        assert next[j] == r[j];
      }
    }
  }

  /** The radios after the first n iterations of fillForm's loop. */
  function Filled(rs: seq<Radio>, on: set<nat>, n: nat): (r: seq<Radio>)
    ensures |r| == |rs|
  {
    if n == 0 then rs else SetPair(Filled(rs, on, n - 1), n - 1, (n - 1) in on)
  }

  /** The loop's radios after n iterations are the page with its first n pairs filled. */
  lemma {:induction false} FilledFillsPairs(rs: seq<Radio>, on: set<nat>, n: nat)
    ensures PairsFilled(rs, Filled(rs, on, n), on, n)
  {
    if n > 0 {
      FilledFillsPairs(rs, on, n - 1);
      SetPairFills(rs, Filled(rs, on, n - 1), on, n);
    }
  }

  /** The picked radio carries the value '1' when on holds and '0' otherwise. */
  lemma PickedValue(rs: seq<Radio>, c: nat, on: bool)
    requires HasPair(rs, c)
    ensures Picked(rs, c, on) < |rs| && rs[Picked(rs, c, on)].channel == c
    ensures rs[Picked(rs, c, on)].value == if on then "1" else "0"
  {
  }

  /** The page holds the six radio pairs and no other sensor radios. */
  predicate SixPairs(rs: seq<Radio>)
  {
    (forall k :: 0 <= k < |rs| ==> rs[k].channel < RadioPairs)
    && forall c :: 0 <= c < RadioPairs ==> HasPair(rs, c)
  }

  /** After fillForm's loop the checked ON radios are exactly those of the pairs switched on. */
  lemma FilledOnChannels(rs: seq<Radio>, f: seq<Radio>, on: set<nat>)
    requires SixPairs(rs) && PairsFilled(rs, f, on, RadioPairs) && forall c :: c in on ==> c < RadioPairs
    ensures (set x | x in f && x.checked && x.value == "1" :: x.channel) == on
  {
    var checkedOn := set x | x in f && x.checked && x.value == "1" :: x.channel;
    forall c | c in checkedOn
      ensures c in on
    {
      var x :| x in f && x.checked && x.value == "1" && x.channel == c;
      var j :| 0 <= j < |f| && f[j] == x;
      assert rs[j].channel == c && rs[j].value == "1";
      assert RadioFilled(rs, f, on, RadioPairs, j);
      PickedValue(rs, c, c in on);
    }
    forall c: nat | c in on
      ensures c in checkedOn
    {
      var j := Picked(rs, c, true);
      PickedValue(rs, c, true);
      assert RadioFilled(rs, f, on, RadioPairs, j);
      assert f[j].checked && f[j].value == "1" && f[j].channel == c;
      assert f[j] in f;
    }
  }

  /**
   * fillForm followed by parseRadios: on the six-pair page the mask read
   * back from the radios is the configured mask's low six bits, mask & 0x3F.
   */
  lemma FillThenParse(rs: seq<Radio>, mask: int)
    requires SixPairs(rs)
    ensures ParsedMask(Checked(Filled(rs, BitSet(mask, RadioPairs), RadioPairs))) == mask % 64
  {
    var on := BitSet(mask, RadioPairs);
    var f := Filled(rs, on, RadioPairs);
    FilledFillsPairs(rs, on, RadioPairs);
    var c := Checked(f);
    CheckedMembers(f);
    assert ChannelsInRange(c) by {
      forall k | 0 <= k < |c| ensures c[k].channel < MaxChannel {
        assert c[k] in f;
        var j :| 0 <= j < |f| && f[j] == c[k];
      }
    }
    ParsedMaskIsOnChannels(c);
    CheckedOnChannels(f);
    FilledOnChannels(rs, f, on);
    BitsValueBelow(on, RadioPairs, MaxChannel);
    BitsValueOfBits(mask, RadioPairs);
    BitSumIsMod(mask, RadioPairs);
    assert Pow2(6) == 64;
  }

  // ---------------------------------------------------------------------
  // Field values
  // ---------------------------------------------------------------------

  /** `data.field || ''` for a text field: a missing field shows as empty. */
  function TextOrEmpty(v: Option<string>): (r: string)
    ensures v.None? ==> r == ""
    ensures v.Some? ==> r == v.value
  {
    if v.Some? then v.value else ""
  }

  /**
   * `data.sensor_mask || ''` written into a text input: a missing mask and a
   * mask of 0, both falsy, show as empty; any other number as its decimal.
   */
  function MaskFieldText(v: Option<int>): (r: string)
    ensures r == "" <==> v.None? || v.value == 0
    ensures v.Some? && v.value != 0 ==> r == IntToString(v.value)
  {
    if v.None? || v.value == 0 then "" else IntToString(v.value)
  }

  // ---------------------------------------------------------------------
  // The page
  // ---------------------------------------------------------------------

  /** The #sensor_mask_hex label: "0x" and the mask in upper-case hexadecimal. */
  function HexLabel(mask: nat): string
  {
    "0x" + Digits(mask, 16)
  }

  /** The #sensor_mask_binary label: "0b" and the mask in binary, padded with '0' to width digits. */
  function BinaryLabel(mask: nat, width: nat): string
  {
    "0b" + PadStart(Digits(mask, 2), width, '0')
  }

  /**
   * What parseRadios writes for the radios rs: the mask of the checked ON
   * radios in decimal, in hex and in binary padded to the number of checked
   * radios.
   */
  function MaskLabels(rs: seq<Radio>): (string, string, string)
  {
    var mask := ParsedMask(Checked(rs));
    (Decimal(mask), HexLabel(mask), BinaryLabel(mask, |Checked(rs)|))
  }

  /** Both labels read back, after their prefix, as the mask; the binary one has at least width digits. */
  lemma LabelsReadBack(mask: nat, width: nat)
    ensures HexLabel(mask)[..2] == "0x" && ValueOf(HexLabel(mask)[2..], 16) == mask
    ensures BinaryLabel(mask, width)[..2] == "0b" && ValueOf(BinaryLabel(mask, width)[2..], 2) == mask
    ensures |BinaryLabel(mask, width)| >= 2 + width
  {
    assert HexLabel(mask)[2..] == Digits(mask, 16);
    assert BinaryLabel(mask, width)[2..] == PadStart(Digits(mask, 2), width, '0');
    PadStartValue(Digits(mask, 2), width, 2);
  }

  /** One more radio in parseRadios' forEach. */
  lemma ParsedMaskStep(rs: seq<Radio>, k: nat)
    requires k < |rs|
    ensures ParsedMask(rs[..k + 1]) ==
              if rs[k].value == "1" then OrBit(ParsedMask(rs[..k]), rs[k].channel) else ParsedMask(rs[..k])
  {
    assert rs[..k + 1][..k] == rs[..k];
  }

  /**
   * parseRadios' loop over the checked radios: the OR of 1 << N over those
   * whose value is '1', written as the decimal mask, "0x" and upper-case hex,
   * and "0b" and binary padded with '0' to the number of checked radios.
   */
  method ParseMask(radios: seq<Radio>) returns (value: string, hex: string, binary: string)
    ensures (value, hex, binary) == MaskLabels(radios)
  {
    var checkedRadios := Checked(radios);
    var bitmask: nat := 0;
    for k := 0 to |checkedRadios|
      invariant bitmask == ParsedMask(checkedRadios[..k])
    {
      ParsedMaskStep(checkedRadios, k);
      var radio := checkedRadios[k];
      if radio.value == "1" {
        bitmask := OrBit(bitmask, radio.channel);
      }
    }
    assert checkedRadios[..|checkedRadios|] == checkedRadios;
    value, hex, binary := Decimal(bitmask), HexLabel(bitmask), BinaryLabel(bitmask, |checkedRadios|);
  }

  /**
   * fillForm's loop over the six radio pairs: pair i is switched ON exactly
   * when bit i of the mask is set; only the checked states change.
   */
  method SetPairs(radios: seq<Radio>, mask: int) returns (rs: seq<Radio>)
    ensures rs == Filled(radios, BitSet(mask, RadioPairs), RadioPairs)
    ensures SameShape(rs, radios)
  {
    ghost var on := BitSet(mask, RadioPairs);
    rs := radios;
    for i := 0 to RadioPairs
      invariant rs == Filled(radios, on, i)
    {
      var isEnabled := Bit(mask, i);
      var radioOn, radioOff := First(rs, i, "1"), First(rs, i, "0");
      var next := rs;
      if radioOn.Some? && radioOff.Some? {
        next := SetChecked(next, radioOn.value, isEnabled);
        next := SetChecked(next, radioOff.value, !isEnabled);
      }
      assert isEnabled == (i in on);
      assert next == SetPair(rs, i, isEnabled);
      rs := next;
    }
    FilledFillsPairs(radios, on, RadioPairs);
  }

  /**
   * The inputs fillForm writes and parseRadios leaves alone, in the order of
   * Page.Inputs: each text field or '', and the inputs and the submit button
   * enabled.
   */
  function FormInputs(data: Config): (string, string, string, string, bool, bool)
  {
    (TextOrEmpty(data.staSsid), TextOrEmpty(data.staPass), TextOrEmpty(data.apSsid),
     TextOrEmpty(data.apPass), true, true)
  }

  /**
   * The page's inputs: the four text fields, the radios, the sensor_mask
   * input (found by fillForm as input[name="sensor_mask"] and by parseRadios
   * as #sensor_mask: one element, the one the form posts), the two labels
   * parseRadios writes, and whether the inputs and the submit button are
   * enabled.
   */
  class Page {
    var staSsid: string
    var staPass: string
    var apSsid: string
    var apPass: string
    var radios: seq<Radio>
    var sensorMask: string
    var hexLabel: string
    var binaryLabel: string
    var fieldsEnabled: bool
    var submitEnabled: bool

    predicate Valid()
      reads this
    {
      ChannelsInRange(radios)
    }

    /** The inputs parseRadios leaves alone. */
    function Inputs(): (string, string, string, string, bool, bool)
      reads this
    {
      (staSsid, staPass, apSsid, apPass, fieldsEnabled, submitEnabled)
    }

    /** What parseRadios writes. */
    function Labels(): (string, string, string)
      reads this
    {
      (sensorMask, hexLabel, binaryLabel)
    }

    /**
     * parseRadios: reads the checked radios and writes the mask to
     * #sensor_mask and its two labels; nothing else changes.
     */
    method ParseRadios()
      requires Valid()
      modifies this
      ensures Valid() && radios == old(radios) && Inputs() == old(Inputs())
      ensures Labels() == MaskLabels(radios)
    {
      var value, hex, binary := ParseMask(radios);
      sensorMask, hexLabel, binaryLabel := value, hex, binary;
    }

    /**
     * fillForm: each text input gets its field or '' and is enabled, the
     * submit button is enabled, each of the six radio pairs is set from the
     * mask's bits, and parseRadios then recomputes the mask and its labels
     * from the radios as set. The text fillForm first puts in the
     * sensor_mask input is overwritten by parseRadios' decimal, so on the
     * six-pair page the field posts mask & 0x3F.
     */
    method FillForm(data: Config)
      requires Valid()
      modifies this
      ensures Valid()
      ensures Inputs() == FormInputs(data)
      ensures radios == Filled(old(radios), BitSet(MaskNumber(data.sensorMask), RadioPairs), RadioPairs)
      ensures Labels() == MaskLabels(radios)
      ensures SixPairs(old(radios)) ==> sensorMask == Decimal(MaskNumber(data.sensorMask) % 64)
    {
      staSsid, staPass, apSsid, apPass := TextOrEmpty(data.staSsid), TextOrEmpty(data.staPass),
                                          TextOrEmpty(data.apSsid), TextOrEmpty(data.apPass);
      sensorMask, fieldsEnabled, submitEnabled := MaskFieldText(data.sensorMask), true, true;
      FillRadios(MaskNumber(data.sensorMask));
      if SixPairs(old(radios)) {
        FillThenParse(old(radios), MaskNumber(data.sensorMask));
      }
    }

    /** The radio half of fillForm: its loop over the six pairs, then parseRadios. */
    method FillRadios(mask: int)
      requires Valid()
      modifies this
      ensures Valid() && Inputs() == old(Inputs())
      ensures radios == Filled(old(radios), BitSet(mask, RadioPairs), RadioPairs)
      ensures Labels() == MaskLabels(radios)
    {
      var rs := SetPairs(radios, mask);
      var value, hex, binary := ParseMask(rs);
      radios, sensorMask, hexLabel, binaryLabel := rs, value, hex, binary;
    }
  }
}
