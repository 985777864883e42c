/**
 * The NVS wrapper of main/nvs_manager.c over an abstract key-value store.
 *
 * The flash partition is a pair of typed maps (strings and 32-bit integers)
 * in the one namespace "storage". Whether the library is initialised and
 * whether the namespace exists decide what nvs_open returns; per-key read
 * and write failures of the library are injected as fixed maps.
 */
module NvsManager {
  import opened Esp

  /** What read_string finds for a key, given the size limit it is called with. */
  datatype StrRead =
    | Found(s: string)       // both nvs_get_str calls succeed
    | Dropped                // the size query succeeds, the copy fails, and the failure is swallowed
    | Failed(err: EspErr)    // an error read_string returns as it is

  /** The status read_string returns for a read outcome. */
  function Status(r: StrRead): EspErr
  {
    match r
    case Found(_) => EspOk
    case Dropped => EspOk
    case Failed(e) => e
  }

  /** The abstract state of the NVS partition and its injected faults. */
  datatype NvsView = NvsView(
    strings: map<string, string>,
    ints: map<string, int>,
    initialized: bool,
    namespaceExists: bool,
    getErr: map<string, EspErr>,   // failure of the first nvs_get_str / of nvs_get_i32 for a key
    readErr: set<string>,          // keys whose second nvs_get_str (the copy) fails
    setErr: map<string, EspErr>)   // failure of nvs_set_str / nvs_set_i32 for a key
  {
    /** Stored strings are C strings, stored integers are int32, injected faults are failures. */
    predicate Valid()
    {
      && (forall k :: k in strings ==> Nul !in strings[k])
      && (forall k :: k in ints ==> IsInt32(ints[k]))
      && (forall k :: k in getErr ==> getErr[k] != EspOk)
      && (forall k :: k in setErr ==> setErr[k] != EspOk)
    }
  }

  /** nvs_open("storage", NVS_READONLY): a missing namespace is not created. */
  function OpenReadOnly(v: NvsView): EspErr
  {
    if !v.initialized then NvsNotInitialized
    else if !v.namespaceExists then NvsNotFound
    else EspOk
  }

  /** nvs_open("storage", NVS_READWRITE): creates the namespace when the library is initialised. */
  function OpenReadWrite(v: NvsView): EspErr
  {
    if !v.initialized then NvsNotInitialized else EspOk
  }

  /**
   * read_string(key, value, &maxLen): open, size query, length check against
   * maxLen (which counts the NUL), copy.
   */
  function LookupString(v: NvsView, key: string, maxLen: nat): (r: StrRead)
    requires v.Valid()
    ensures r.Found? <==> Status(r) == EspOk && key !in v.readErr
    ensures r.Failed? ==> r.err != EspOk
    ensures r.Found? ==> key in v.strings && r.s == v.strings[key] && |r.s| < maxLen
    ensures r.Found? || r.Dropped? ==> OpenReadOnly(v) == EspOk && key !in v.getErr
    ensures (key in v.strings && |v.strings[key]| >= maxLen && OpenReadOnly(v) == EspOk && key !in v.getErr)
              ==> r == Failed(NvsInvalidLength)
    ensures OpenReadOnly(v) != EspOk ==> r == Failed(OpenReadOnly(v))
    ensures OpenReadOnly(v) == EspOk && key in v.getErr ==> r == Failed(v.getErr[key])
    ensures OpenReadOnly(v) == EspOk && key !in v.getErr && key !in v.strings ==> r == Failed(NvsNotFound)
    ensures (OpenReadOnly(v) == EspOk && key !in v.getErr && key in v.strings && |v.strings[key]| < maxLen)
              ==> r == (if key in v.readErr then Dropped else Found(v.strings[key]))
  {
    if OpenReadOnly(v) != EspOk then Failed(OpenReadOnly(v))
    else if key in v.getErr then Failed(v.getErr[key])
    else if key !in v.strings then Failed(NvsNotFound)
    else if |v.strings[key]| + 1 > maxLen then Failed(NvsInvalidLength)
    else if key in v.readErr then Dropped
    else Found(v.strings[key])
  }

  /** read_int(key, &value): the status and the new value of the out-parameter. */
  function LookupInt(v: NvsView, key: string, value: int): (r: (EspErr, int))
    ensures r.0 == EspOk || r.0 == OpenReadOnly(v)
    ensures r.0 == NvsNotFound ==> OpenReadOnly(v) == NvsNotFound
    ensures r.1 != value ==> key in v.ints && r.1 == v.ints[key]
  {
    if OpenReadOnly(v) != EspOk then (OpenReadOnly(v), value)
    else (EspOk, if key in v.ints && key !in v.getErr then v.ints[key] else value)
  }

  /** store_string(key, value): the status and the new partition state. */
  function StoreStringView(v: NvsView, key: string, value: string): (r: (EspErr, NvsView))
    ensures v.Valid() && Nul !in value ==> r.1.Valid()
    ensures r.1.initialized == v.initialized && r.1.getErr == v.getErr && r.1.readErr == v.readErr && r.1.setErr == v.setErr
    ensures v.initialized && key !in v.setErr ==> r.0 == EspOk
    ensures v.initialized && key in v.setErr ==> r.0 == v.setErr[key]
    ensures !v.initialized ==> r == (NvsNotInitialized, v)
    ensures v.initialized ==> r.1.namespaceExists
    ensures v.initialized && key !in v.setErr ==> r.1.strings == v.strings[key := value] && r.1.ints == v.ints
    ensures !(v.initialized && key !in v.setErr) ==> r.1.strings == v.strings && r.1.ints == v.ints
  {
    if OpenReadWrite(v) != EspOk then (OpenReadWrite(v), v)
    else
      var created := v.(namespaceExists := true);
      if key in v.setErr then (v.setErr[key], created)
      else (EspOk, created.(strings := v.strings[key := value]))
  }

  /** store_int(key, value): the status and the new partition state. */
  function StoreIntView(v: NvsView, key: string, value: int): (r: (EspErr, NvsView))
    ensures v.Valid() && IsInt32(value) ==> r.1.Valid()
    ensures r.1.initialized == v.initialized && r.1.getErr == v.getErr && r.1.readErr == v.readErr && r.1.setErr == v.setErr
    ensures v.initialized && key !in v.setErr ==> r.0 == EspOk
    ensures v.initialized && key in v.setErr ==> r.0 == v.setErr[key]
    ensures !v.initialized ==> r == (NvsNotInitialized, v)
    ensures v.initialized ==> r.1.namespaceExists
    ensures v.initialized && key !in v.setErr ==> r.1.ints == v.ints[key := value] && r.1.strings == v.strings
    ensures !(v.initialized && key !in v.setErr) ==> r.1.strings == v.strings && r.1.ints == v.ints
  {
    if OpenReadWrite(v) != EspOk then (OpenReadWrite(v), v)
    else
      var created := v.(namespaceExists := true);
      if key in v.setErr then (v.setErr[key], created)
      else (EspOk, created.(ints := v.ints[key := value]))
  }

  /** A read never sees a failed write: a key's value changes only by a successful store. */
  lemma StoreStringThenLookup(v: NvsView, key: string, value: string, maxLen: nat)
    requires v.Valid() && Nul !in value
    requires StoreStringView(v, key, value).0 == EspOk
    requires key !in v.getErr && key !in v.readErr
    ensures StoreStringView(v, key, value).1.Valid()
    ensures |value| < maxLen ==> LookupString(StoreStringView(v, key, value).1, key, maxLen) == Found(value)
    ensures |value| >= maxLen ==> LookupString(StoreStringView(v, key, value).1, key, maxLen) == Failed(NvsInvalidLength)
  {
  }

  /**
   * The NVS partition together with the bookkeeping of the wrapper's calls:
   * every nvs_set_* call in order, the number of commits and the number of
   * handles opened and never closed.
   */
  class NvsFlash {
    var strings: map<string, string>
    var ints: map<string, int>
    var initialized: bool
    var namespaceExists: bool
    const getErr: map<string, EspErr>
    const readErr: set<string>
    const setErr: map<string, EspErr>
    var setCalls: seq<string>
    var commits: nat
    var openHandles: nat

    function View(): NvsView
      reads this
    {
      NvsView(strings, ints, initialized, namespaceExists, getErr, readErr, setErr)
    }

    predicate Valid()
      reads this
    {
      View().Valid()
    }

    constructor(v: NvsView)
      requires v.Valid()
      ensures View() == v && Valid()
      ensures setCalls == [] && commits == 0 && openHandles == 0
    {
      strings, ints := v.strings, v.ints;
      initialized, namespaceExists := v.initialized, v.namespaceExists;
      getErr, readErr, setErr := v.getErr, v.readErr, v.setErr;
      setCalls, commits, openHandles := [], 0, 0;
    }

    /**
     * read_string: on success the string and its NUL are written at the
     * front of value and the returned length is their count; on every other
     * path value is untouched and the length stays maxLen.
     */
    method ReadString(key: string, value: array<char>, maxLen: nat) returns (err: EspErr, len: nat)
      requires Valid() && maxLen <= value.Length
      modifies value
      ensures err == Status(LookupString(View(), key, maxLen))
      ensures LookupString(View(), key, maxLen).Found? ==>
                var s := LookupString(View(), key, maxLen).s;
                len == |s| + 1 && value[..len] == s + [Nul] && value[len..] == old(value[len..])
      ensures !LookupString(View(), key, maxLen).Found? ==> len == maxLen && value[..] == old(value[..])
    {
      len := maxLen;
      err := OpenReadOnly(View());
      if err != EspOk {
        return;
      }
      if key in getErr {
        err := getErr[key];
        return;
      }
      if key !in strings {
        err := NvsNotFound;
        return;
      }
      var s := strings[key];
      var requiredSize := |s| + 1;
      if requiredSize > len {
        err := NvsInvalidLength;
        return;
      }
      if key in readErr {
        // the copy failed: its status is overwritten by the ESP_OK below
        err := EspOk;
        return;
      }
      forall i | 0 <= i < |s| {
        value[i] := s[i];
      }
      value[requiredSize - 1] := Nul;
      len := requiredSize;
      err := EspOk;
    }

    /**
     * read_int: ESP_OK whenever the namespace opens; the out-parameter
     * changes only when the key holds an integer that can be read.
     */
    method ReadInt(key: string, value: int) returns (err: EspErr, newValue: int)
      ensures err == EspOk <==> initialized && namespaceExists
      ensures err != EspOk ==> err == OpenReadOnly(View())
      ensures newValue == if err == EspOk && key in ints && key !in getErr then ints[key] else value
      ensures (err, newValue) == LookupInt(View(), key, value)
    {
      err := OpenReadOnly(View());
      newValue := value;
      if err == EspOk {
        if key in ints && key !in getErr {
          newValue := ints[key];
        }
      }
    }

    /**
     * store_string: commits only after a successful set and closes every
     * handle it opened; returns the open or the set error.
     */
    method StoreString(key: string, value: string) returns (err: EspErr)
      requires Valid() && Nul !in value
      modifies this
      ensures Valid()
      ensures (err, View()) == StoreStringView(old(View()), key, value)
      ensures setCalls == old(setCalls) + if old(initialized) then [key] else []
      ensures commits == old(commits) + if err == EspOk then 1 else 0
      ensures openHandles == old(openHandles)
    {
      err := OpenReadWrite(View());
      if err == EspOk {
        namespaceExists := true;
        setCalls := setCalls + [key];
        if key in setErr {
          err := setErr[key];
        } else {
          strings := strings[key := value];
          commits := commits + 1;
        }
      }
    }

    /**
     * store_int: a failed set returns at once and leaves its handle open;
     * otherwise it commits, closes and returns ESP_OK.
     */
    method StoreInt(key: string, value: int) returns (err: EspErr)
      requires Valid() && IsInt32(value)
      modifies this
      ensures Valid()
      ensures (err, View()) == StoreIntView(old(View()), key, value)
      ensures setCalls == old(setCalls) + if old(initialized) then [key] else []
      ensures commits == old(commits) + if err == EspOk then 1 else 0
      ensures openHandles == old(openHandles) + if old(initialized) && key in setErr then 1 else 0
    {
      err := OpenReadWrite(View());
      if err == EspOk {
        namespaceExists := true;
        setCalls := setCalls + [key];
        if key in setErr {
          err := setErr[key];
          openHandles := openHandles + 1;
          return;
        }
        ints := ints[key := value];
        commits := commits + 1;
      }
    }

    /** nvs_flash_init with its outcome given: the library is usable after ESP_OK. */
    method FlashInit(result: EspErr)
      modifies this
      ensures View() == old(View()).(initialized := old(initialized) || result == EspOk)
      ensures setCalls == old(setCalls) && commits == old(commits) && openHandles == old(openHandles)
    {
      if result == EspOk {
        initialized := true;
      }
    }

    /** nvs_flash_erase: de-initialises the library and empties the partition. */
    method FlashErase()
      modifies this
      ensures View() == old(View()).(strings := map[], ints := map[], initialized := false, namespaceExists := false)
      ensures setCalls == old(setCalls) && commits == old(commits) && openHandles == old(openHandles)
    {
      strings, ints := map[], map[];
      initialized, namespaceExists := false, false;
    }
  }
}
