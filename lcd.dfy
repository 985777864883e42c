/**
 * The 20x4 character LCD of main/lcd.c: an 80-cell frame buffer with a
 * cursor, the screen state machine, the status-line texts, and the bytes the
 * driver sends over I2C to the display's 4-bit interface.
 */
module Lcd {
  import opened Esp
  import opened Bits
  import opened Text
  import StateManager

  /** LCD_COLS, LCD_ROWS and LCD_BUFFER_SIZE. */
  const Cols := 20
  const Rows := 4
  const BufferSize := 80

  /** LCD_ROW_OFFSET: the display address of the first cell of each row. */
  const RowOffsets: seq<int> := [0x00, 0x40, 0x14, 0x54]

  /** The control bits of a byte sent to the I2C expander. */
  const BacklightBit: bv8 := 0x08
  const EnableBit: bv8 := 0x04
  const RsCmd: bv8 := 0
  const RsData: bv8 := 1
  const RwWrite: bv8 := 0

  /** lcd_screen_state_t. START_SCREEN is the first of the screens the button cycles through. */
  const ScreenSplash := 0
  const ScreenApMode := 1
  const ScreenRestarting := 2
  const ScreenStart := 3
  const ScreenTempAndAvg := 3
  const ScreenTempAndStatus := 4
  const ScreenStatus1 := 5
  const ScreenStatus2 := 6
  const ScreenStatus3 := 7
  const ScreenMax := 8

  /** status_line_t: the twelve status lines, each LCD_COLS characters wide. */
  const StatusLineStaState := 0
  const StatusLineStaSsid := 1
  const StatusLineStaSsidValue := 2
  const StatusLineStaIp := 3
  const StatusLineStaIpValue := 4
  const StatusLineApState := 5
  const StatusLineApSsid := 6
  const StatusLineApSsidValue := 7
  const StatusLineApIp := 8
  const StatusLineApIpValue := 9
  const StatusLineStartupMode := 10
  const StatusLineSensorMask := 11
  const StatusLineMax := 12

  /** The column of the startup-mode text and of the sensor-mask text in their lines. */
  const StartupModeColumn := 14
  const SensorMaskColumn := 9
  const SensorMaskTextSize := 10

  // ---------------------------------------------------------------------
  // Frame buffer writes
  // ---------------------------------------------------------------------

  /**
   * The buffer after writing t character by character from cell p on, each
   * character moving one cell on and wrapping from the last cell to the first.
   */
  function Written(b: seq<char>, p: int, t: seq<char>): (r: seq<char>)
    requires |b| == BufferSize && 0 <= p < BufferSize
    ensures |r| == BufferSize
    decreases |t|
  {
    if t == [] then b
    else Written(b, p, t[..|t| - 1])[(p + |t| - 1) % 80 := t[|t| - 1]]
  }

  /** The frame-buffer index of column col of row row: rows are LCD_COLS (20) cells apart. */
  function Cell(col: int, row: int): (p: int)
    requires 0 <= col < Cols && 0 <= row < Rows
    ensures 0 <= p < BufferSize
  {
    row * 20 + col
  }

  /** A cell index is its own residue. */
  lemma CellIsResidue(p: int)
    requires 0 <= p < BufferSize
    ensures p % 80 == p
  {
  }

  /** One step on from cell x mod 80 is cell (x + 1) mod 80. */
  lemma NextCell(x: int)
    ensures (x % 80 + 1) % 80 == (x + 1) % 80
  {
  }

  /** Writing one more character puts it in the cell after the ones written so far. */
  lemma WrittenSnoc(b: seq<char>, p: int, t: seq<char>, c: char)
    requires |b| == BufferSize && 0 <= p < BufferSize
    ensures Written(b, p, t + [c]) == Written(b, p, t)[(p + |t|) % 80 := c]
  {
    assert (t + [c])[..|t|] == t;
  }

  /** Cell j is k cells on from cell p exactly when (j - p) mod 80 is k. */
  lemma CellOffset(p: int, j: int, k: int)
    requires 0 <= p < BufferSize && 0 <= j < BufferSize && 0 <= k < BufferSize
    ensures (j - p) % 80 == k <==> j == (p + k) % 80
  {
  }

  /** The buffer after one more character of t is the buffer after the first i, with character i placed. */
  lemma WrittenStep(b: seq<char>, p: int, t: seq<char>, i: int, before: seq<char>, after: seq<char>)
    requires |b| == BufferSize && 0 <= p < BufferSize && 0 <= i < |t|
    requires before == Written(b, p, t[..i]) && after == before[(p + i) % 80 := t[i]]
    ensures after == Written(b, p, t[..i + 1])
  {
    assert t[..i + 1] == t[..i] + [t[i]];
    WrittenSnoc(b, p, t[..i], t[i]);
  }

  /**
   * Writing at most a screenful from p puts character k of t in cell
   * (p + k) mod 80 and leaves every other cell alone.
   */
  lemma {:induction false} WrittenCell(b: seq<char>, p: int, t: seq<char>, j: int)
    requires |b| == BufferSize && 0 <= p < BufferSize && |t| <= BufferSize && 0 <= j < BufferSize
    ensures Written(b, p, t)[j] == if (j - p) % 80 < |t| then t[(j - p) % 80] else b[j]
    decreases |t|
  {
    if t != [] {
      var u := t[..|t| - 1];
      WrittenCell(b, p, u, j);
      CellOffset(p, j, |u|);
    }
  }

  /** The cell address of row r, column c in the display's DDRAM. */
  function DdramAddress(col: int, row: int): (a: int)
    requires 0 <= col < Cols && 0 <= row < Rows
    ensures 0 <= a < 0x68
  {
    col + RowOffsets[row]
  }

  /** Distinct cells have distinct display addresses. */
  lemma DdramAddressInjective(c1: int, r1: int, c2: int, r2: int)
    requires 0 <= c1 < Cols && 0 <= r1 < Rows && 0 <= c2 < Cols && 0 <= r2 < Rows
    ensures DdramAddress(c1, r1) == DdramAddress(c2, r2) ==> c1 == c2 && r1 == r2
  {
  }

  /** The set-DDRAM-address command lcd_set_cursor_position sends: 0x80 | address. */
  function CursorCommand(col: int, row: int): (cmd: bv8)
    requires 0 <= col < Cols && 0 <= row < Rows
    ensures cmd as int == 0x80 + DdramAddress(col, row)
  {
    var a := DdramAddress(col, row);
    SetTopBit(a);
    0x80 | a as bv8
  }

  /** Setting bit 7 of a byte below 0x80 adds 0x80 to it. */
  lemma SetTopBit(a: int)
    requires 0 <= a < 0x80
    ensures (0x80 | a as bv8) as int == 0x80 + a
  {
    var b := a as bv8;
    assert b as int == a;
    assert 0x80 | b == 0x80 + b;
  }

  /** The column and row lcd_set_cursor_position uses: each clamped to its last value. */
  function Clamp(v: int, n: int): (r: int)
    requires n >= 1
    ensures v < n ==> r == v
    ensures v >= n ==> r == n - 1
  {
    if v >= n then n - 1 else v
  }

  /** Different in-range cursor positions give different commands. */
  lemma CursorCommandInjective(c1: int, r1: int, c2: int, r2: int)
    requires 0 <= c1 < Cols && 0 <= r1 < Rows && 0 <= c2 < Cols && 0 <= r2 < Rows
    ensures CursorCommand(c1, r1) == CursorCommand(c2, r2) ==> c1 == c2 && r1 == r2
  {
    DdramAddressInjective(c1, r1, c2, r2);
  }

  /** i2c_send_with_toggle: the byte with EN raised, then the same byte with EN dropped. */
  function Toggled(b: bv8): (r: seq<bv8>)
    ensures |r| == 2 && r[0] & EnableBit == EnableBit && r[1] & EnableBit == 0
    ensures r[0] & !EnableBit == b & !EnableBit && r[1] == b & !EnableBit
  {
    [b | EnableBit, (b | EnableBit) & !EnableBit]
  }

  /** The two nibble bytes i2c_send_4bit_data builds: high nibble first, each with rs, backlight and RW. */
  function Nibbles(data: bv8, rs: bv8, backlight: bv8): (r: seq<bv8>)
    ensures |r| == 2
  {
    [(data & 0xF0) | rs | backlight | RwWrite, ((data << 4) & 0xF0) | rs | backlight | RwWrite]
  }

  /** The four expander bytes one i2c_send_4bit_data transmits. */
  function FourBitFrames(data: bv8, rs: bv8, backlight: bv8): (r: seq<bv8>)
    ensures |r| == 4
  {
    var n := Nibbles(data, rs, backlight);
    Toggled(n[0]) + Toggled(n[1])
  }

  /**
   * With the control bits confined to the low nibble, the data lines of the
   * two latched bytes carry the high and then the low nibble of the byte, so
   * the display reassembles it exactly; both carry rs and the backlight bit.
   */
  lemma FourBitFramesCarryByte(data: bv8, rs: bv8, backlight: bv8)
    requires rs & 0xF0 == 0 && backlight & 0xF0 == 0
    ensures var f := FourBitFrames(data, rs, backlight);
            (f[0] & 0xF0) | ((f[2] & 0xF0) >> 4) == data
            && f[0] & 0xF0 == f[1] & 0xF0 && f[2] & 0xF0 == f[3] & 0xF0
            && f[0] & EnableBit == EnableBit && f[1] & EnableBit == 0
            && f[2] & EnableBit == EnableBit && f[3] & EnableBit == 0
            && (forall k :: 0 <= k < 4 ==> f[k] & 0x0B == (rs | backlight) & 0x0B)
  {
  }

  // ---------------------------------------------------------------------
  // Screen state machine
  // ---------------------------------------------------------------------

  /** lcd_set_screen_state's choice: the enum compares unsigned, so any value outside 0..MAX-1 becomes START_SCREEN. */
  function ScreenAfterSet(state: int): (r: int)
    ensures 0 <= r < ScreenMax
    ensures 0 <= state < ScreenMax ==> r == state
    ensures !(0 <= state < ScreenMax) ==> r == ScreenStart
  {
    if 0 <= state < ScreenMax then state else ScreenStart
  }

  /** lcd_next_screen's choice: screens from START_SCREEN on advance and wrap back to it; earlier screens stay. */
  function NextScreen(state: int): (r: int)
    requires 0 <= state < ScreenMax
    ensures 0 <= r < ScreenMax
    ensures state < ScreenStart ==> r == state
    ensures ScreenStart <= state ==> ScreenStart <= r && (r == state + 1 || (state == ScreenMax - 1 && r == ScreenStart))
  {
    var s := if state >= ScreenStart then state + 1 else state;
    if s >= ScreenMax then ScreenStart else s
  }

  /** The screen after k presses of the screen button. */
  function NextScreens(state: int, k: nat): (r: int)
    requires 0 <= state < ScreenMax
    ensures 0 <= r < ScreenMax
  {
    if k == 0 then state else NextScreen(NextScreens(state, k - 1))
  }

  /**
   * The cycling screens form one loop: from any of them, k presses visit
   * START_SCREEN + (state - START_SCREEN + k) mod (MAX - START_SCREEN), so
   * after MAX - START_SCREEN presses the screen is back where it started.
   */
  lemma {:induction false} NextScreensCycle(state: int, k: nat)
    requires ScreenStart <= state < ScreenMax
    ensures NextScreens(state, k) == ScreenStart + (state - ScreenStart + k) % 5
  {
    if k > 0 {
      NextScreensCycle(state, k - 1);
      CycleStep(state - ScreenStart + k - 1);
    }
  }

  /** One press from the screen at offset x mod 5 in the cycle lands at offset (x + 1) mod 5. */
  lemma CycleStep(x: int)
    ensures NextScreen(ScreenStart + x % 5) == ScreenStart + (x + 1) % 5
  {
  }

  /** The screens before START_SCREEN are never left by presses. */
  lemma {:induction false} NextScreensFixBelowStart(state: int, k: nat)
    requires 0 <= state < ScreenStart
    ensures NextScreens(state, k) == state
  {
    if k > 0 {
      NextScreensFixBelowStart(state, k - 1);
    }
  }

  // ---------------------------------------------------------------------
  // Status lines
  // ---------------------------------------------------------------------

  /** A status line of spaces. */
  function BlankLine(): (r: seq<char>)
    ensures |r| == Cols && forall k :: 0 <= k < Cols ==> r[k] == ' '
  {
    seq(Cols, _ => ' ')
  }

  /** memcpy of text into a line at column at. */
  function Overlay(line: seq<char>, at: int, text: seq<char>): (r: seq<char>)
    requires 0 <= at && at + |text| <= |line|
    ensures |r| == |line| && r[at..at + |text|] == text
    ensures forall k :: 0 <= k < |line| && !(at <= k < at + |text|) ==> r[k] == line[k]
  {
    line[..at] + text + line[at + |text|..]
  }

  /**
   * lcd_copy_to_any_buffer_with_max: strchr always finds the terminator, so
   * the length used is the string's length; memccpy then copies that many
   * characters, at most buffer_size, and no terminator.
   */
  function CopyWithMax(buffer: seq<char>, bufferSize: nat, data: seq<char>): (r: seq<char>)
    requires Nul in data && bufferSize <= |buffer|
    ensures |r| == |buffer|
    ensures var n := Min(bufferSize, |CStr(data)|);
            r[..n] == CStr(data)[..n] && r[n..] == buffer[n..]
  {
    var n := Min(bufferSize, |CStr(data)|);
    assert CStr(data)[..n] == data[..n];
    data[..n] + buffer[n..]
  }

  /** The character for bit i of the mask in the sensor-mask text. */
  function BitChar(mask: int, i: nat): char
  {
    if Bit(mask, i) then '1' else '0'
  }

  /** The text the sensor-mask loop builds: "0b" and then bits 7 down to 0. */
  predicate IsSensorMaskText(text: seq<char>, mask: int)
  {
    |text| == SensorMaskTextSize && text[..2] == "0b"
    && forall i :: 0 <= i < 8 ==> text[9 - i] == BitChar(mask, i)
  }

  /** Bits n - 1 down to 0 of the mask as binary digits, most significant first. */
  function BitText(mask: int, n: nat): (r: seq<char>)
    ensures |r| == n && forall k :: 0 <= k < n ==> r[k] == BitChar(mask, n - 1 - k)
  {
    seq(n, k requires 0 <= k < n => BitChar(mask, n - 1 - k))
  }

  /** The digit for a bit, at weight w, is worth w when the bit is set and 0 otherwise. */
  lemma BitCharWeight(mask: int, i: nat, w: int)
    ensures DigitValue(BitChar(mask, i)) * w == if Bit(mask, i) then w else 0
  {
  }

  /** Read as a binary number, the digits of bits n - 1..0 give the sum of their weights. */
  lemma {:induction false} BitTextValue(mask: int, n: nat)
    ensures ValueOf(BitText(mask, n), 2) == BitSum(mask, n)
  {
    if n > 0 {
      var t := BitText(mask, n);
      BitTextValue(mask, n - 1);
      BinaryValueFront(t);
      assert t[1..] == BitText(mask, n - 1);
      assert t[0] == BitChar(mask, n - 1);
      BitCharWeight(mask, n - 1, Pow2(n - 1));
    } else {
      assert BitText(mask, 0) == [];
    }
  }

  /**
   * The sensor-mask text read back as a binary number is the mask as an
   * unsigned byte: the int8_t's sign does not leak into the eight digits.
   */
  lemma SensorMaskTextRoundTrip(text: seq<char>, mask: int)
    requires IsSensorMaskText(text, mask)
    ensures ValueOf(text[2..], 2) == mask % 256
  {
    assert text[2..] == BitText(mask, 8);
    BitTextValue(mask, 8);
    BitSumIsMod(mask, 8);
    assert Pow2(8) == 256;
  }

  /**
   * The sensor-mask loop of lcd_status_line_init: "0b" and eight '0's, then
   * for i in 0..7 the digit at 9 - i becomes '1' when bit i of the mask is set.
   */
  method SensorMaskText(mask: int) returns (text: seq<char>)
    requires -128 <= mask < 128
    ensures IsSensorMaskText(text, mask)
  {
    var buffer := new char[SensorMaskTextSize](k => if k == 0 then '0' else if k == 1 then 'b' else '0');
    var i := 0;
    while i < 8
      invariant 0 <= i <= 8
      invariant buffer[0] == '0' && buffer[1] == 'b'
      invariant forall k :: 0 <= k < i ==> buffer[9 - k] == BitChar(mask, k)
    {
      if Bit(mask, i) {
        buffer[9 - i] := '1';
      } else {
        buffer[9 - i] := '0';
      }
      i := i + 1;
    }
    text := buffer[..];
  }

  /** The startup-mode text: "STA" for STA startup, "AP" for any other value. */
  function StartupModeText(startupMode: int): (t: seq<char>)
    ensures startupMode == StateManager.StartupSta <==> t == "STA"
    ensures startupMode != StateManager.StartupSta <==> t == "AP"
  {
    if startupMode == StateManager.StartupSta then "STA" else "AP"
  }

  /** A status line holding a fixed label from its first column, spaces after it. */
  function LabelLine(text: seq<char>): (r: seq<char>)
    requires |text| <= Cols
    ensures |r| == Cols
  {
    Overlay(BlankLine(), 0, text)
  }

  /** The label line starts with the label and is blank after it. */
  lemma LabelLineText(text: seq<char>)
    requires |text| <= Cols
    ensures LabelLine(text)[..|text|] == text
    ensures forall k :: |text| <= k < Cols ==> LabelLine(text)[k] == ' '
  {
  }

  /** A status line holding a record string cut to the line width, spaces after it. */
  function ValueLine(data: seq<char>): (r: seq<char>)
    requires Nul in data
    ensures |r| == Cols
  {
    CopyWithMax(BlankLine(), Cols, data)
  }

  /** The value line starts with the string, cut to the line width, and is blank after it. */
  lemma ValueLineText(data: seq<char>)
    requires Nul in data
    ensures var r, n := ValueLine(data), Min(Cols, |CStr(data)|);
            r[..n] == CStr(data)[..n] && forall k :: n <= k < Cols ==> r[k] == ' '
  {
    var r, n := ValueLine(data), Min(Cols, |CStr(data)|);
    assert r[n..] == BlankLine()[n..];
    assert forall k :: n <= k < Cols ==> r[k] == r[n..][k - n];
  }

  /** The startup-mode line: its label, then "STA" or "AP" from column 14. */
  function StartupModeLine(startupMode: int): (r: seq<char>)
    ensures |r| == Cols && r[..13] == "Startup Mode:"
    ensures var t := StartupModeText(startupMode);
            r[StartupModeColumn..StartupModeColumn + |t|] == t
  {
    var head := LabelLine("Startup Mode:");
    LabelLineText("Startup Mode:");
    var r := Overlay(head, StartupModeColumn, StartupModeText(startupMode));
    assert r[..13] == head[..13];
    r
  }

  /** The sensor-mask line: its label, then the ten-character mask text from column 9. */
  function SensorMaskLine(maskText: seq<char>): (r: seq<char>)
    requires |maskText| == SensorMaskTextSize
    ensures |r| == Cols && r[..8] == "Sensors:"
    ensures r[SensorMaskColumn..SensorMaskColumn + SensorMaskTextSize] == maskText
  {
    var head := LabelLine("Sensors:");
    LabelLineText("Sensors:");
    var r := Overlay(head, SensorMaskColumn, maskText);
    assert r[..8] == head[..8];
    r
  }

  /**
   * The status lines after the memset to spaces and the copies of the fixed
   * labels; the two SSID value lines stay blank.
   */
  function LabelLines(): (lines: seq<seq<char>>)
    ensures |lines| == StatusLineMax && forall l :: 0 <= l < StatusLineMax ==> |lines[l]| == Cols
  {
    [LabelLine("WiFi STA: Disabled"), LabelLine("WiFi STA SSID:"), BlankLine(),
     LabelLine("WiFi STA IP Address:"), LabelLine("IP Not Set"), LabelLine("Wifi AP: Disabled"),
     LabelLine("AP SSID:"), BlankLine(), LabelLine("WiFi AP IP Address:"), LabelLine("192.168.4.1"),
     LabelLine("Startup Mode:"), LabelLine("Sensors:")]
  }

  /**
   * The twelve lines lcd_status_line_init fills from its copy of the record:
   * the fixed labels, then the two SSIDs cut to the line width, the startup
   * mode and the sensor-mask text written over their lines.
   */
  function InitialStatusLines(rec: StateManager.Record, maskText: seq<char>): (lines: seq<seq<char>>)
    requires rec.Valid() && |maskText| == SensorMaskTextSize
    ensures |lines| == StatusLineMax && forall l :: 0 <= l < StatusLineMax ==> |lines[l]| == Cols
    ensures lines[StatusLineStaSsidValue] == ValueLine(rec.staSsid)
    ensures lines[StatusLineApSsidValue] == ValueLine(rec.apSsid)
    ensures lines[StatusLineStartupMode] == StartupModeLine(rec.startupMode)
    ensures lines[StatusLineSensorMask] == SensorMaskLine(maskText)
    ensures forall l :: 0 <= l < StatusLineMax && l !in {StatusLineStaSsidValue, StatusLineApSsidValue, StatusLineStartupMode, StatusLineSensorMask}
              ==> lines[l] == LabelLines()[l]
  {
    LabelLines()[StatusLineStaSsidValue := ValueLine(rec.staSsid)]
                [StatusLineApSsidValue := ValueLine(rec.apSsid)]
                [StatusLineStartupMode := StartupModeLine(rec.startupMode)]
                [StatusLineSensorMask := SensorMaskLine(maskText)]
  }

  /**
   * replace_zeros_with_spaces: every NUL among the first length characters
   * becomes a space; nothing else changes.
   */
  method ReplaceZerosWithSpaces(buffer: array<char>, length: nat)
    requires length <= buffer.Length
    modifies buffer
    ensures forall k :: 0 <= k < buffer.Length ==>
              buffer[k] == if k < length && old(buffer[k]) == Nul then ' ' else old(buffer[k])
    ensures Nul !in buffer[..length]
  {
    var i := 0;
    while i < length
      invariant 0 <= i <= length
      invariant forall k :: 0 <= k < buffer.Length ==>
                  buffer[k] == if k < i && old(buffer[k]) == Nul then ' ' else old(buffer[k])
    {
      if buffer[i] == Nul {
        buffer[i] := ' ';
      }
      i := i + 1;
    }
  }

  /**
   * The number of characters lcd_copy_to_lcd_buffer copies: it stops after
   * m characters or at the first NUL, whichever comes first.
   */
  function CopyLength(data: seq<char>, m: nat): (n: nat)
    requires m <= |data| || Nul in data
    ensures n <= m && n <= |data|
    ensures forall k :: 0 <= k < n ==> data[k] != Nul
    ensures n < m ==> data[n] == Nul
  {
    if m == 0 then 0
    else
      var p := CopyLength(data, m - 1);
      if p == m - 1 && data[m - 1] != Nul then m else p
  }

  /** The three conditions on CopyLength's result pin it down. */
  lemma CopyLengthUnique(data: seq<char>, m: nat, n: nat)
    requires m <= |data| || Nul in data
    requires n <= m && n <= |data|
    requires forall k :: 0 <= k < n ==> data[k] != Nul
    requires n < m ==> data[n] == Nul
    ensures n == CopyLength(data, m)
  {
    var c := CopyLength(data, m);
    if n < c {
      assert false;
    } else if c < n {
      assert false;
    }
  }

  /** The frame buffer with the cells from c on replaced by text. */
  function Spliced(b: seq<char>, c: int, text: seq<char>): (r: seq<char>)
    requires 0 <= c && c + |text| <= |b|
    ensures |r| == |b|
  {
    b[..c] + text + b[c + |text|..]
  }

  /** One more character copied into the next cell. */
  lemma SplicedStep(b: seq<char>, c: int, data: seq<char>, i: nat, before: seq<char>, after: seq<char>)
    requires 0 <= c && i < |data| && c + i + 1 <= |b|
    requires before == Spliced(b, c, data[..i])
    requires after == before[c + i := data[i]]
    ensures after == Spliced(b, c, data[..i + 1])
  {
    assert data[..i + 1] == data[..i] + [data[i]];
    assert |after| == |Spliced(b, c, data[..i + 1])|;
    forall k | 0 <= k < |after|
      ensures after[k] == Spliced(b, c, data[..i + 1])[k]
    {
    }
  }

  // ---------------------------------------------------------------------
  // The driver's state
  // ---------------------------------------------------------------------

  /**
   * The statics of lcd.c: the frame buffer, the cursor, the screen state,
   * the render request flag, the backlight bit, the status lines, and the
   * bytes transmitted to the I2C expander so far.
   */
  class Display {
    var buffer: array<char>
    var cursorCol: int
    var cursorRow: int
    var screenState: int
    var renderRequested: bool
    var backlight: bv8
    var statusLines: seq<seq<char>>
    var sent: seq<bv8>

    predicate Valid()
      reads this
    {
      buffer.Length == BufferSize
      && 0 <= cursorCol < Cols && 0 <= cursorRow < Rows
      && 0 <= screenState < ScreenMax
      && backlight & 0xF0 == 0
      && |statusLines| == StatusLineMax
    }

    /** The fields a frame-buffer write leaves alone. */
    function Others(): (int, bool, bv8, seq<seq<char>>, seq<bv8>)
      reads this
    {
      (screenState, renderRequested, backlight, statusLines, sent)
    }

    /** The cell the cursor designates. */
    function Position(): (p: int)
      reads this
      requires Valid()
      ensures 0 <= p < BufferSize
    {
      Cell(cursorCol, cursorRow)
    }

    /** The statics' initial values: splash screen, cursor home, backlight on, blank status lines. */
    constructor()
      ensures Valid() && fresh(buffer)
      ensures cursorCol == 0 && cursorRow == 0 && screenState == ScreenSplash
      ensures backlight == BacklightBit && !renderRequested && sent == []
      ensures forall l :: 0 <= l < StatusLineMax ==> statusLines[l] == BlankLine()
    {
      buffer := new char[BufferSize](_ => Nul);
      cursorCol, cursorRow := 0, 0;
      screenState := ScreenSplash;
      renderRequested := false;
      backlight := BacklightBit;
      statusLines := seq(StatusLineMax, _ => BlankLine());
      sent := [];
    }

    /** lcd_set_cursor: the cursor moves only to a position on the screen. */
    method SetCursor(col: int, row: int)
      requires Valid() && 0 <= col < 256 && 0 <= row < 256
      modifies this
      ensures Valid()
      ensures col < Cols && row < Rows ==> cursorCol == col && cursorRow == row
      ensures !(col < Cols && row < Rows) ==> cursorCol == old(cursorCol) && cursorRow == old(cursorRow)
      ensures buffer == old(buffer) && Others() == old(Others())
    {
      if col < Cols && row < Rows {
        cursorCol := col;
        cursorRow := row;
      }
    }

    /**
     * lcd_write_character: the character goes into the cursor's cell and the
     * cursor moves one cell on, from the end of a row to the start of the
     * next and from the last row to the first.
     */
    method WriteCharacter(c: char)
      requires Valid()
      modifies this, buffer
      ensures Valid() && buffer == old(buffer)
      ensures buffer[..] == old(buffer[..])[old(Position()) := c]
      ensures Position() == (old(Position()) + 1) % 80
      ensures Others() == old(Others())
    {
      if cursorCol < Cols && cursorRow < Rows {
        buffer[Cell(cursorCol, cursorRow)] := c;
        cursorCol := cursorCol + 1;
        if cursorCol >= Cols {
          cursorCol := 0;
          cursorRow := (cursorRow + 1) % 4;
        }
      }
    }

    /** lcd_write_text: the characters of the C string, one after the other from the cursor. */
    method WriteText(str: seq<char>)
      requires Valid() && Nul in str
      modifies this, buffer
      ensures Valid() && buffer == old(buffer)
      ensures buffer[..] == Written(old(buffer[..]), old(Position()), CStr(str))
      ensures Position() == (old(Position()) + |CStr(str)|) % 80
      ensures Others() == old(Others())
    {
      var t := CStr(str);
      ghost var b0, p0 := buffer[..], Position();
      CellIsResidue(p0);
      var i := 0;
      while str[i] != Nul
        invariant 0 <= i <= |t|
        invariant Valid() && buffer == old(buffer)
        invariant buffer[..] == Written(b0, p0, t[..i])
        invariant Position() == (p0 + i) % 80
        invariant Others() == old(Others())
        decreases |t| - i
      {
        ghost var before := buffer[..];
        NextCell(p0 + i);
        WriteCharacter(str[i]);
        WrittenStep(b0, p0, t, i, before, buffer[..]);
        i := i + 1;
      }
      assert t[..i] == t;
    }

    /** lcd_write_buffer: the first size characters, NULs included, one after the other from the cursor. */
    method WriteBuffer(data: seq<char>, size: nat)
      requires Valid() && size <= |data|
      modifies this, buffer
      ensures Valid() && buffer == old(buffer)
      ensures buffer[..] == Written(old(buffer[..]), old(Position()), data[..size])
      ensures Position() == (old(Position()) + size) % 80
      ensures Others() == old(Others())
    {
      ghost var t := data[..size];
      ghost var b0, p0 := buffer[..], Position();
      CellIsResidue(p0);
      var i := 0;
      while i < size
        invariant 0 <= i <= size
        invariant Valid() && buffer == old(buffer)
        invariant buffer[..] == Written(b0, p0, t[..i])
        invariant Position() == (p0 + i) % 80
        invariant Others() == old(Others())
      {
        ghost var before := buffer[..];
        NextCell(p0 + i);
        WriteCharacter(data[i]);
        WrittenStep(b0, p0, t, i, before, buffer[..]);
        i := i + 1;
      }
      assert t[..i] == t;
    }

    /** lcd_clear_buffer: every cell a space, the cursor home. */
    method ClearBuffer()
      requires Valid()
      modifies this, buffer
      ensures Valid() && buffer == old(buffer)
      ensures forall k :: 0 <= k < BufferSize ==> buffer[k] == ' '
      ensures cursorCol == 0 && cursorRow == 0
      ensures Others() == old(Others())
    {
      forall k | 0 <= k < BufferSize {
        buffer[k] := ' ';
      }
      SetCursor(0, 0);
    }
    /**
     * lcd_copy_to_lcd_buffer: a position off the screen changes nothing;
     * otherwise at most LCD_COLS - col characters of data, up to its first
     * NUL, go into the row from col on, and the cursor is then set just past
     * them, which lcd_set_cursor refuses when that is column LCD_COLS.
     */
    method CopyToLcdBuffer(data: seq<char>, size: nat, col: int, row: int)
      requires Valid() && -128 <= col < 128 && -128 <= row < 128
      requires Min(size, Cols) <= |data| || Nul in data
      modifies this, buffer
      ensures Valid() && buffer == old(buffer) && Others() == old(Others())
      ensures !(0 <= col < Cols && 0 <= row < Rows) ==>
                buffer[..] == old(buffer[..]) && cursorCol == old(cursorCol) && cursorRow == old(cursorRow)
      ensures 0 <= col < Cols && 0 <= row < Rows ==>
                var n := CopyLength(data, Min(size, Cols - col));
                buffer[..] == Spliced(old(buffer[..]), Cell(col, row), data[..n])
                && (col + n < Cols ==> cursorCol == col + n && cursorRow == row)
                && (col + n == Cols ==> cursorCol == old(cursorCol) && cursorRow == old(cursorRow))
    {
      if col < 0 || col >= Cols || row < 0 || row >= Rows {
        return;
      }
      var n := CopyRun(data, Min(size, Cols - col), Cell(col, row));
      SetCursor(col + n, row);
    }

    /** The copy loop of lcd_copy_to_lcd_buffer: up to m characters of data, stopping at a NUL, from cell c on. */
    method CopyRun(data: seq<char>, m: nat, c: nat) returns (n: nat)
      requires Valid() && c + m <= BufferSize
      requires m <= |data| || Nul in data
      modifies buffer
      ensures n == CopyLength(data, m)
      ensures buffer[..] == Spliced(old(buffer[..]), c, data[..n])
    {
      ghost var b0 := buffer[..];
      n := 0;
      while n < m && data[n] != Nul
        invariant 0 <= n <= m && n <= |data|
        invariant forall k :: 0 <= k < n ==> data[k] != Nul
        invariant buffer[..] == Spliced(b0, c, data[..n])
      {
        ghost var before := buffer[..];
        buffer[c + n] := data[n];
        SplicedStep(b0, c, data, n, before, buffer[..]);
        n := n + 1;
      }
      CopyLengthUnique(data, m, n);
    }

    /**
     * lcd_set_screen_state: a state below LCD_SCREEN_MAX is kept, any other
     * becomes START_SCREEN; the buffer is cleared and a render requested.
     */
    method SetScreenState(state: int)
      requires Valid()
      modifies this, buffer
      ensures Valid() && buffer == old(buffer)
      ensures screenState == ScreenAfterSet(state) && renderRequested
      ensures forall k :: 0 <= k < BufferSize ==> buffer[k] == ' '
      ensures cursorCol == 0 && cursorRow == 0
      ensures backlight == old(backlight) && statusLines == old(statusLines) && sent == old(sent)
    {
      if 0 <= state < ScreenMax {
        screenState := state;
      } else {
        screenState := ScreenStart;
      }
      ClearBuffer();
      renderRequested := true;
    }

    /**
     * lcd_next_screen: the screens from START_SCREEN on advance and wrap;
     * the buffer is cleared and a render requested.
     */
    method GoToNextScreen()
      requires Valid()
      modifies this, buffer
      ensures Valid() && buffer == old(buffer)
      ensures screenState == NextScreen(old(screenState)) && renderRequested
      ensures forall k :: 0 <= k < BufferSize ==> buffer[k] == ' '
      ensures cursorCol == 0 && cursorRow == 0
      ensures backlight == old(backlight) && statusLines == old(statusLines) && sent == old(sent)
    {
      if screenState >= ScreenStart {
        screenState := screenState + 1;
      }
      if screenState >= ScreenMax {
        screenState := ScreenStart;
      }
      ClearBuffer();
      renderRequested := true;
    }

    /** i2c_send_4bit_data: the four expander bytes for data, with the current backlight bit. */
    method Send4BitData(data: bv8, rs: bv8)
      requires Valid()
      modifies this
      ensures Valid() && sent == old(sent) + FourBitFrames(data, rs, backlight)
      ensures buffer == old(buffer) && cursorCol == old(cursorCol) && cursorRow == old(cursorRow)
      ensures screenState == old(screenState) && renderRequested == old(renderRequested)
      ensures backlight == old(backlight) && statusLines == old(statusLines)
    {
      sent := sent + FourBitFrames(data, rs, backlight);
    }

    /**
     * lcd_set_cursor_position: column and row are clamped to the screen and
     * the set-DDRAM-address command is sent as a command byte.
     */
    method SetCursorPosition(col: int, row: int)
      requires Valid() && 0 <= col < 256 && 0 <= row < 256
      modifies this
      ensures Valid()
      ensures sent == old(sent) + FourBitFrames(CursorCommand(Clamp(col, Cols), Clamp(row, Rows)), RsCmd, backlight)
      ensures buffer == old(buffer) && cursorCol == old(cursorCol) && cursorRow == old(cursorRow)
      ensures screenState == old(screenState) && renderRequested == old(renderRequested)
      ensures backlight == old(backlight) && statusLines == old(statusLines)
    {
      var c, r := col, row;
      if c >= Cols {
        c := Cols - 1;
      }
      if r >= Rows {
        r := Rows - 1;
      }
      Send4BitData(CursorCommand(c, r), RsCmd);
    }

    /**
     * lcd_toggle_backlight: the backlight bit is set or cleared, the other
     * bits kept, and the new status byte is transmitted on its own.
     */
    method ToggleBacklight(on: bool)
      requires Valid()
      modifies this
      ensures Valid()
      ensures backlight & BacklightBit == (if on then BacklightBit else 0)
      ensures backlight & !BacklightBit == old(backlight) & !BacklightBit
      ensures sent == old(sent) + [backlight]
      ensures buffer == old(buffer) && cursorCol == old(cursorCol) && cursorRow == old(cursorRow)
      ensures screenState == old(screenState) && renderRequested == old(renderRequested)
      ensures statusLines == old(statusLines)
    {
      if on {
        backlight := backlight | BacklightBit;
      } else {
        backlight := backlight & !BacklightBit;
      }
      sent := sent + [backlight];
    }

    /**
     * lcd_status_line_init over the copy of the record it takes: when the
     * copy cannot be allocated nothing changes; otherwise every status line
     * is rebuilt, the sensor-mask text by the bit loop.
     */
    method StatusLineInit(rec: StateManager.Record, allocOk: bool)
      requires Valid() && rec.Valid()
      modifies this
      ensures Valid()
      ensures !allocOk ==> statusLines == old(statusLines)
      ensures allocOk ==> exists maskText :: IsSensorMaskText(maskText, rec.sensorMask)
                                && statusLines == InitialStatusLines(rec, maskText)
      ensures buffer == old(buffer) && cursorCol == old(cursorCol) && cursorRow == old(cursorRow)
      ensures screenState == old(screenState) && renderRequested == old(renderRequested)
      ensures backlight == old(backlight) && sent == old(sent)
    {
      if !allocOk {
        return;
      }
      var maskText := SensorMaskText(rec.sensorMask);
      statusLines := InitialStatusLines(rec, maskText);
    }
  }
}
