/**
 * The debugging helpers of main/prototype_functions.c that carry logic: the
 * hex dump of a buffer (its printf output modelled as the text it builds)
 * and the file-existence test.
 */
module PrototypeFunctions {
  import opened Esp
  import opened Text
  import FatfsManager

  /** test_file: stat succeeds exactly for a file on the mounted volume. */
  function TestFile(fs: FatfsManager.FileSystem, path: string): (r: bool)
    reads fs
    ensures r <==> fs.Exists(path)
  {
    fs.mounted && path in fs.files
  }

  /** A character a terminal shows as itself: ASCII 32..126. */
  predicate Printable(c: char)
  {
    32 <= c as int <= 126
  }

  /**
   * dump_string_print_buffer: printable bytes as themselves, \n \r \t and
   * NUL as two-character escapes, everything else (control bytes and bytes
   * 128..255, negative as a signed char) as '.'.
   */
  function PrintChar(b: Byte): (r: string)
    ensures 1 <= |r| <= 2
    ensures forall i :: 0 <= i < |r| ==> Printable(r[i])
    ensures 32 <= b <= 126 <==> r == [b as char]
    ensures |r| == 2 <==> b == 10 || b == 13 || b == 9 || b == 0
  {
    if 32 <= b <= 126 then [b as char]
    else if b == 10 then "\\n"
    else if b == 13 then "\\r"
    else if b == 9 then "\\t"
    else if b == 0 then "\\0"
    else "."
  }

  /** The ASCII column of a run of bytes. */
  function AsciiOf(s: seq<Byte>): (r: string)
    ensures |s| <= |r| <= 2 * |s|
  {
    if s == [] then [] else AsciiOf(s[..|s| - 1]) + PrintChar(s[|s| - 1])
  }

  /** "%02X " for byte k, plus the extra space after every 8th byte. */
  function HexCell(b: Byte, k: nat): string
  {
    Hex2(b) + " " + (if (k + 1) % 8 == 0 then " " else "")
  }

  /** What iteration k of the main loop prints: the hex cell, and after every 16th byte the ASCII of its line. */
  function Cell(buf: seq<Byte>, k: nat): string
    requires k < |buf|
  {
    HexCell(buf[k], k) + if (k + 1) % 16 == 0 then AsciiOf(buf[k - 15..k + 1]) + "\n" else ""
  }

  /** The output of the first i iterations of the main loop. */
  function Emit(buf: seq<Byte>, i: nat): string
    requires i <= |buf|
  {
    if i == 0 then [] else Emit(buf, i - 1) + Cell(buf, i - 1)
  }

  /** The padding printed while the counter goes from a up to b: three spaces per byte, one more at each multiple of 8. */
  function PadBetween(a: nat, b: nat): string
    decreases b
  {
    if b <= a then [] else PadBetween(a, b - 1) + "   " + if b % 8 == 0 then " " else ""
  }

  function Header(n: nat): string
  {
    "Buffer length: " + Decimal(n) + "\n" + "Buffer content:\n"
  }

  /** The whole text dump_string prints for a buffer. */
  function DumpSpec(buf: seq<Byte>): string
  {
    Header(|buf|) + Emit(buf, |buf|) + LastLine(buf)
  }

  /** The padded last line, when the length is not a multiple of 16. */
  function LastLine(buf: seq<Byte>): string
  {
    var n := |buf|;
    if n % 16 != 0 then PadBetween(n, n + 16 - n % 16) + AsciiOf(buf[n - n % 16..]) + "\n" else ""
  }

  /**
   * dump_string: one hex cell per byte, the ASCII column after every 16
   * bytes, and a padded last line when the length is not a multiple of 16.
   */
  method DumpString(buf: seq<Byte>) returns (out: string)
    ensures out == DumpSpec(buf)
  {
    out := "Buffer length: " + Decimal(|buf|) + "\n";
    out := out + "Buffer content:\n";
    assert out == Header(|buf|);
    out := AppendCells(out, buf);
    out := AppendLastLine(out, buf);
  }

  /** The main loop of dump_string: a hex cell per byte, the ASCII column after every 16th. */
  method AppendCells(out: string, buf: seq<Byte>) returns (r: string)
    ensures r == out + Emit(buf, |buf|)
  {
    r := out;
    for i := 0 to |buf|
      invariant r == out + Emit(buf, i)
    {
      r := AppendCell(r, buf, i);
    }
  }

  /** One iteration of the main loop: the cell of byte i, and the ASCII column when it ends a line. */
  method AppendCell(out: string, buf: seq<Byte>, i: nat) returns (r: string)
    requires i < |buf|
    ensures r == out + Cell(buf, i)
  {
    r := out + Hex2(buf[i]) + " ";
    if (i + 1) % 8 == 0 {
      r := r + " ";
    }
    assert r == out + HexCell(buf[i], i);
    if (i + 1) % 16 == 0 {
      r := AppendAscii(r, buf, i - 15, i + 1);
      r := r + "\n";
    }
  }

  /** The end of dump_string: padding up to the ASCII column and the ASCII of the partial last line. */
  method AppendLastLine(out: string, buf: seq<Byte>) returns (r: string)
    ensures r == out + LastLine(buf)
  {
    r := out;
    var i := |buf|;
    ghost var tail := "";
    if i % 16 != 0 {
      var tmp := i;
      r := AppendPadding(r, tmp);
      r := AppendAscii(r, buf, tmp - tmp % 16, tmp);
      tail := PadBetween(tmp, tmp + 16 - tmp % 16) + AsciiOf(buf[tmp - tmp % 16..tmp]);
      assert r == out + tail;
    }
    assert r == out + tail;
    if |buf| % 16 != 0 {
      r := r + "\n";
      tail := tail + "\n";
      assert r == out + tail;
    }
    LastLineParts(buf, tail);
  }

  /** The pieces AppendLastLine prints make up LastLine. */
  lemma LastLineParts(buf: seq<Byte>, tail: string)
    requires var n := |buf|;
             tail == if n % 16 != 0 then PadBetween(n, n + 16 - n % 16) + AsciiOf(buf[n - n % 16..n]) + "\n" else ""
    ensures LastLine(buf) == tail
  {
    assert buf[|buf| - |buf| % 16..|buf|] == buf[|buf| - |buf| % 16..];
  }

  /** The inner loop that prints the ASCII column of the bytes a..b-1. */
  method AppendAscii(out: string, buf: seq<Byte>, a: nat, b: nat) returns (r: string)
    requires a <= b <= |buf|
    ensures r == out + AsciiOf(buf[a..b])
  {
    r := out;
    var j := a;
    while j < b
      invariant a <= j <= b
      invariant r == out + AsciiOf(buf[a..j])
    {
      AsciiStep(buf, a, j);
      r := r + PrintChar(buf[j]);
      assert r == out + (AsciiOf(buf[a..j]) + PrintChar(buf[j]));
      j := j + 1;
    }
  }

  /** One more byte adds its printed form to the ASCII column. */
  lemma AsciiStep(buf: seq<Byte>, a: nat, j: nat)
    requires a <= j < |buf|
    ensures AsciiOf(buf[a..j + 1]) == AsciiOf(buf[a..j]) + PrintChar(buf[j])
  {
    var s := buf[a..j + 1];
    assert s[..|s| - 1] == buf[a..j];
  }

  /** The padding loop: the counter runs on from tmp to the next multiple of 16. */
  method AppendPadding(out: string, tmp: nat) returns (r: string)
    requires tmp % 16 != 0
    ensures r == out + PadBetween(tmp, tmp + 16 - tmp % 16)
  {
    r := out;
    var i := tmp;
    ghost var end := tmp + 16 - tmp % 16;
    NextMultiple(tmp, i);
    while i % 16 != 0
      invariant tmp <= i <= end
      invariant i % 16 == 0 <==> i == end
      invariant r == out + PadBetween(tmp, i)
      decreases end - i
    {
      r := r + "   ";
      i := i + 1;
      if i % 8 == 0 {
        r := r + " ";
      }
      NextMultiple(tmp, i);
    }
  }

  /** Between tmp and the next multiple of 16 above it, only that multiple is one. */
  lemma NextMultiple(tmp: nat, i: nat)
    requires tmp % 16 != 0 && tmp <= i <= tmp + 16 - tmp % 16
    ensures i % 16 == 0 <==> i == tmp + 16 - tmp % 16
  {
    var q := tmp / 16;
    assert tmp == 16 * q + tmp % 16;
    assert 16 * q < i <= 16 * q + 16;
  }

  /** Every character is printable or a line break. */
  predicate DumpText(s: string)
  {
    forall i :: 0 <= i < |s| ==> Printable(s[i]) || s[i] == '\n'
  }

  lemma DumpTextAppend(a: string, b: string)
    requires DumpText(a) && DumpText(b)
    ensures DumpText(a + b)
  {
    forall i | 0 <= i < |a + b|
      ensures Printable((a + b)[i]) || (a + b)[i] == '\n'
    {
      if i >= |a| {
        assert (a + b)[i] == b[i - |a|];
      }
    }
  }

  /** Every character of the dump is printable or a line break, whatever the buffer holds. */
  lemma DumpIsPrintable(buf: seq<Byte>)
    ensures forall i :: 0 <= i < |DumpSpec(buf)| ==> Printable(DumpSpec(buf)[i]) || DumpSpec(buf)[i] == '\n'
  {
    var n := |buf|;
    DecimalPrintable(n);
    EmitPrintable(buf, n);
    DumpTextAppend(Header(n), Emit(buf, n));
    if n % 16 != 0 {
      var pad := PadBetween(n, n + 16 - n % 16);
      var ascii := AsciiOf(buf[n - n % 16..]);
      PadPrintable(n, n + 16 - n % 16);
      AsciiPrintable(buf[n - n % 16..]);
      assert DumpText(pad) && DumpText(ascii) && DumpText("\n");
      DumpTextAppend(pad, ascii);
      DumpTextAppend(pad + ascii, "\n");
    }
    assert DumpText(LastLine(buf));
    DumpTextAppend(Header(n) + Emit(buf, n), LastLine(buf));
    assert DumpText(DumpSpec(buf));
  }

  lemma DecimalPrintable(n: nat)
    ensures forall i :: 0 <= i < |Header(n)| ==> Printable(Header(n)[i]) || Header(n)[i] == '\n'
  {
  }

  lemma {:induction false} AsciiPrintable(s: seq<Byte>)
    ensures forall i :: 0 <= i < |AsciiOf(s)| ==> Printable(AsciiOf(s)[i])
  {
    if s != [] {
      AsciiPrintable(s[..|s| - 1]);
    }
  }

  lemma {:induction false} PadPrintable(a: nat, b: nat)
    ensures forall i :: 0 <= i < |PadBetween(a, b)| ==> Printable(PadBetween(a, b)[i])
    decreases b
  {
    if b > a {
      PadPrintable(a, b - 1);
    }
  }

  lemma {:induction false} EmitPrintable(buf: seq<Byte>, i: nat)
    requires i <= |buf|
    ensures forall k :: 0 <= k < |Emit(buf, i)| ==> Printable(Emit(buf, i)[k]) || Emit(buf, i)[k] == '\n'
  {
    if i > 0 {
      EmitPrintable(buf, i - 1);
      var k := i - 1;
      assert forall c :: 0 <= c < 2 ==> Printable(Hex2(buf[k])[c]);
      if (k + 1) % 16 == 0 {
        AsciiPrintable(buf[k - 15..k + 1]);
      }
    }
  }

  /** The width of the hex area of the bytes a..b-1 (their cells without the ASCII columns). */
  function HexWidth(a: nat, b: nat): nat
    decreases b
  {
    if b <= a then 0 else HexWidth(a, b - 1) + 3 + if b % 8 == 0 then 1 else 0
  }

  /**
   * The ASCII column of the final, partial line starts where that of a full
   * line does: its cells and padding together are as wide as 16 cells.
   */
  lemma {:induction false} AsciiColumnAligned(start: nat, n: nat)
    requires start % 16 == 0 && start < n < start + 16
    ensures HexWidth(start, n) + |PadBetween(n, start + 16)| == HexWidth(start, start + 16) == 50
  {
    PadIsHexWidth(n, start + 16);
    HexWidthSplit(start, n, start + 16);
    FullLineWidth(start);
  }

  lemma {:induction false} PadIsHexWidth(a: nat, b: nat)
    ensures |PadBetween(a, b)| == HexWidth(a, b)
    decreases b
  {
    if b > a {
      PadIsHexWidth(a, b - 1);
    }
  }

  lemma {:induction false} HexWidthSplit(a: nat, m: nat, b: nat)
    requires a <= m <= b
    ensures HexWidth(a, b) == HexWidth(a, m) + HexWidth(m, b)
    decreases b
  {
    if b > m {
      HexWidthSplit(a, m, b - 1);
    }
  }

  lemma FullLineWidth(start: nat)
    requires start % 16 == 0
    ensures HexWidth(start, start + 16) == 50
  {
    HalfLineWidth(start);
    HalfLineWidth(start + 8);
    HexWidthSplit(start, start + 8, start + 16);
  }

  /** Eight cells starting at a multiple of 8: seven of three characters and the last of four. */
  lemma HalfLineWidth(a: nat)
    requires a % 8 == 0
    ensures HexWidth(a, a + 8) == 25
  {
    var k := a / 8;
    assert a == 8 * k;
    assert (a + 1) % 8 != 0 && (a + 2) % 8 != 0 && (a + 3) % 8 != 0 && (a + 4) % 8 != 0;
    assert (a + 5) % 8 != 0 && (a + 6) % 8 != 0 && (a + 7) % 8 != 0 && (a + 8) % 8 == 0;
    calc {
      HexWidth(a, a + 8);
      HexWidth(a, a + 7) + 4;
      HexWidth(a, a + 6) + 7;
      HexWidth(a, a + 5) + 10;
      HexWidth(a, a + 4) + 13;
      HexWidth(a, a + 3) + 16;
      HexWidth(a, a + 2) + 19;
      HexWidth(a, a + 1) + 22;
      HexWidth(a, a) + 25;
    }
  }
}
