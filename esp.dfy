/**
 * Vocabulary shared by the firmware modules: ESP-IDF status codes, C strings
 * held in fixed-width char buffers, fixed-width integer conversions and the
 * application's custom event log.
 */
module Esp {

  /** An esp_err_t status code. */
  type EspErr = int

  const EspOk: EspErr := 0
  const EspFail: EspErr := -1
  const NvsNotInitialized: EspErr := 0x1101
  const NvsNotFound: EspErr := 0x1102
  const NvsInvalidLength: EspErr := 0x110c
  const NvsNoFreePages: EspErr := 0x110d
  const NvsNewVersionFound: EspErr := 0x1110

  datatype Option<T> = None | Some(value: T)

  /** A byte value (uint8_t). */
  type Byte = b: int | 0 <= b < 256

  const Nul: char := '\0'

  function Min(a: int, b: int): int
  {
    if a <= b then a else b
  }

  /**
   * The C string held by a char buffer: its characters up to the first NUL,
   * or all of them when the buffer holds no NUL.
   */
  function CStr(s: seq<char>): (r: seq<char>)
    ensures |r| <= |s| && r == s[..|r|]
    ensures Nul !in r
    ensures |r| < |s| ==> s[|r|] == Nul
  {
    if s == [] || s[0] == Nul then [] else [s[0]] + CStr(s[1..])
  }

  /** A NUL-free string is its own C string. */
  lemma CStrOfPlain(s: seq<char>)
    ensures Nul !in s ==> CStr(s) == s
  {
  }

  /** The C string of a buffer holding p, a NUL and anything after it, is p. */
  lemma {:induction false} CStrOfTerminated(p: seq<char>, q: seq<char>)
    requires Nul !in p
    ensures CStr(p + [Nul] + q) == p
  {
    var s := p + [Nul] + q;
    if p != [] {
      assert s[0] == p[0] && p[0] in p;
      assert s[1..] == p[1..] + [Nul] + q;
      CStrOfTerminated(p[1..], q);
    }
  }

  /**
   * strlcpy(dst, src, |dst|): the C string of src, cut to |dst| - 1
   * characters, then a NUL; the bytes after that NUL keep their old values.
   */
  function Strlcpy(dst: seq<char>, src: seq<char>): (r: seq<char>)
    requires |dst| > 0
    ensures |r| == |dst| && Nul in r
    ensures CStr(r) == CStr(src)[..Min(|CStr(src)|, |dst| - 1)]
    ensures r[|CStr(r)| + 1..] == dst[|CStr(r)| + 1..]
  {
    var n := Min(|CStr(src)|, |dst| - 1);
    CStrOfTerminated(CStr(src)[..n], dst[n + 1..]);
    CStr(src)[..n] + [Nul] + dst[n + 1..]
  }

  /** A NUL-free string shorter than the buffer survives strlcpy whole. */
  lemma StrlcpyFits(dst: seq<char>, src: seq<char>)
    requires Nul !in src && |src| < |dst|
    ensures CStr(Strlcpy(dst, src)) == src
  {
    CStrOfPlain(src);
  }

  /** strnlen(s, n): the length of the C string in s, but at most n. */
  function Strnlen(s: seq<char>, n: nat): (r: nat)
    requires n <= |s|
    ensures r <= n && r <= |s|
    ensures r < n ==> r < |s| && s[r] == Nul
    ensures forall i :: 0 <= i < r ==> s[i] != Nul
  {
    Min(|CStr(s)|, n)
  }

  /**
   * snprintf into a buffer of the given size: the text is cut to size - 1
   * characters, the last byte being reserved for the NUL.
   */
  function Snprintf(text: string, size: nat): (r: string)
    requires size > 0
    ensures r <= text && |r| == Min(|text|, size - 1)
    ensures |text| < size ==> r == text
  {
    text[..Min(|text|, size - 1)]
  }

  /** A char buffer of the given width that holds a C string. */
  predicate IsCBuffer(s: seq<char>, width: nat)
  {
    |s| == width && Nul in s
  }

  /** Conversion to int8_t: two's complement wrap-around modulo 256. */
  function Int8Of(v: int): (r: int)
    ensures -128 <= r < 128
    ensures (v - r) % 256 == 0
    ensures -128 <= v < 128 ==> r == v
  {
    (v + 128) % 256 - 128
  }

  /** Conversion to uint32_t: reduction modulo 2^32. */
  function Uint32Of(v: int): (r: int)
    ensures 0 <= r < 0x1_0000_0000
    ensures (v - r) % 0x1_0000_0000 == 0
    ensures 0 <= v < 0x1_0000_0000 ==> r == v
  {
    v % 0x1_0000_0000
  }

  predicate IsInt32(v: int)
  {
    -0x8000_0000 <= v < 0x8000_0000
  }

  /** The events of the application's custom event base, in id order. */
  datatype Event = WifiStateChanged | ButtonLongPress | ButtonShortPress | RestartRequested

  /**
   * The custom event loop seen from the posting side: every event posted
   * while the loop exists, in posting order.
   */
  class EventLog {
    var loopCreated: bool
    var posted: seq<Event>

    constructor(created: bool)
      ensures loopCreated == created && posted == []
    {
      loopCreated := created;
      posted := [];
    }

    /** events_post: appends the event when the loop exists, otherwise only logs. */
    method Post(e: Event)
      modifies this
      ensures loopCreated == old(loopCreated)
      ensures posted == if loopCreated then old(posted) + [e] else old(posted)
    {
      if loopCreated {
        posted := posted + [e];
      }
    }
  }
}
