/**
 * The HTTP side of main/server.c: the URI prefix test, the scanner for
 * application/x-www-form-urlencoded bodies, the settings form that writes
 * the device record, and the decisions of the three handlers. The scanner
 * does no percent or plus decoding (section 5.1 of the WHATWG URL Standard
 * describes the full format).
 */
module Server {
  import opened Esp
  import opened Http
  import opened Text
  import opened NvsManager
  import opened FatfsManager
  import opened StateManager

  /** The request body buffer of parse_ap_post_request: 511 bytes and a NUL. */
  const RecvBufSize: nat := 512
  /** The soft-AP address every redirect points at. */
  const SoftApOrigin := "http://192.168.4.1"
  /** location_buffer of send_302_redirect. */
  const LocationBufSize: nat := 128

  const NotFoundStatus := "404 Not Found"
  const NotFoundBody := "Hello from ESP32!"
  const SavedMessage := "STA credentials saved successfully. Restarting ESP32..."

  /* ---------------- match_uri ---------------- */

  /**
   * match_uri: strncmp(uri, match, strlen(match)) == 0, compared one
   * character at a time; a URI that ends early meets its NUL and differs.
   */
  function MatchUri(uri: string, pattern: string): (r: bool)
    ensures r <==> pattern <= uri
  {
    if pattern == [] then true
    else uri != [] && uri[0] == pattern[0] && MatchUri(uri[1..], pattern[1..])
  }

  /* ---------------- get_post_field_value ---------------- */

  /** The scan position p holds the key immediately followed by '='. */
  predicate MatchAt(body: string, key: string, p: nat)
  {
    p + |key| < |body| && body[p..p + |key|] == key && body[p + |key|] == '='
  }

  /** The first position at or after from where the key and '=' start. */
  function FindField(body: string, key: string, from: nat): (r: Option<nat>)
    ensures r.Some? ==> from <= r.value && MatchAt(body, key, r.value)
    decreases |body| - from
  {
    if from >= |body| then None
    else if MatchAt(body, key, from) then Some(from)
    else FindField(body, key, from + 1)
  }

  /** The characters of s up to the first '&' (strchr), or all of them (strlen). */
  function TakeValue(s: string): (r: string)
    ensures r <= s && '&' !in r
    ensures |r| < |s| ==> s[|r|] == '&'
  {
    if s == [] || s[0] == '&' then [] else [s[0]] + TakeValue(s[1..])
  }

  /**
   * What get_post_field_value finds for the key in a body: the raw value
   * after the first "key=", cut at '&' and to valueLen - 1 characters, or
   * None (ESP_FAIL).
   */
  function FieldValue(body: string, key: string, valueLen: nat): (r: Option<string>)
    requires valueLen > 0
    ensures r.Some? ==> |r.value| < valueLen && '&' !in r.value
    ensures r.Some? && Nul !in body ==> Nul !in r.value
  {
    match FindField(body, key, 0)
    case None => None
    case Some(p) =>
      var v := TakeValue(body[p + |key| + 1..]);
      Some(v[..Min(|v|, valueLen - 1)])
  }

  /** No position before the one FindField returns matches; None means no position matches at all. */
  lemma {:induction false} FindFieldFirst(body: string, key: string, from: nat)
    ensures FindField(body, key, from).Some? ==>
              forall q :: from <= q < FindField(body, key, from).value ==> !MatchAt(body, key, q)
    ensures FindField(body, key, from).None? ==> forall q :: from <= q ==> !MatchAt(body, key, q)
    decreases |body| - from
  {
    if from < |body| && !MatchAt(body, key, from) {
      FindFieldFirst(body, key, from + 1);
    }
  }

  /** ESP_FAIL exactly when no position of the body holds the key followed by '='. */
  lemma FieldAbsentIff(body: string, key: string, valueLen: nat)
    requires valueLen > 0
    ensures FieldValue(body, key, valueLen).None? <==> forall p :: !MatchAt(body, key, p)
  {
    FindFieldFirst(body, key, 0);
  }

  /** The first match wins: the value is taken after the earliest "key=", wherever it stands. */
  lemma FirstMatchWins(body: string, key: string, valueLen: nat, p: nat)
    requires valueLen > 0
    requires MatchAt(body, key, p) && forall q :: 0 <= q < p ==> !MatchAt(body, key, q)
    ensures var v := TakeValue(body[p + |key| + 1..]);
            FieldValue(body, key, valueLen) == Some(v[..Min(|v|, valueLen - 1)])
  {
    FindFieldFirst(body, key, 0);
  }

  /** A body whose sta_ssid value itself reads "ap_ssid=x". */
  const SmuggledBody := "sta_ssid=ap_ssid=x&ap_ssid=y"

  /**
   * A key also matches inside another field's value: in SmuggledBody the AP
   * SSID found is "x", from inside the STA SSID's value, not the "y" of the
   * real ap_ssid field.
   */
  lemma KeyMatchesInsideValue()
    ensures FieldValue(SmuggledBody, "ap_ssid", SsidMaxLen) == Some("x")
  {
    SmuggledMatch();
    FirstMatchWins(SmuggledBody, "ap_ssid", SsidMaxLen, 9);
    SmuggledValue();
  }

  lemma SmuggledMatch()
    ensures MatchAt(SmuggledBody, "ap_ssid", 9)
    ensures forall q :: 0 <= q < 9 ==> !MatchAt(SmuggledBody, "ap_ssid", q)
  {
    var body, key := SmuggledBody, "ap_ssid";
    assert body[9..16] == key;
    NoEarlierSmuggledMatch();
  }

  /** No position before 9 starts "ap_ssid=": "sta_ssid=" never has "ap" where an 'a' stands. */
  lemma NoEarlierSmuggledMatch()
    ensures forall q :: 0 <= q < 9 ==> !MatchAt(SmuggledBody, "ap_ssid", q)
  {
    var body, key := SmuggledBody, "ap_ssid";
    assert body[0] == 's';
    assert body[1] == 't';
    assert body[2] == 'a';
    assert body[3] == '_';
    assert body[4] == 's';
    assert body[5] == 's';
    assert body[6] == 'i';
    assert body[7] == 'd';
    assert body[8] == '=';
    assert key[0] == 'a' && key[1] == 'p';
    forall q | 0 <= q < 9
      ensures !MatchAt(body, key, q)
    {
      if q == 2 {
        NoMatchAt(body, key, q, 1);
      } else {
        NoMatchAt(body, key, q, 0);
      }
    }
  }

  lemma SmuggledValue()
    ensures var v := TakeValue(SmuggledBody[9 + 7 + 1..]); v[..Min(|v|, SsidMaxLen - 1)] == "x"
  {
    var rest := SmuggledBody[17..];
    assert rest[0] == 'x' && rest[1] == '&';
    assert TakeValue(rest[1..]) == [];
    assert TakeValue(rest) == "x";
  }

  /** One differing character rules a position out. */
  lemma NoMatchAt(body: string, key: string, q: nat, j: nat)
    requires j < |key| && q + j < |body| && body[q + j] != key[j]
    ensures !MatchAt(body, key, q)
  {
    if q + |key| < |body| {
      assert body[q..q + |key|][j] == body[q + j];
    }
  }

  /**
   * get_post_field_value: advances a pointer through the body until the key
   * and '=' start there; then copies the value up to '&' or the end, at most
   * valueLen - 1 characters, and writes a NUL after it. The rest of value is
   * not touched, and nothing is written when the key is not found.
   */
  method GetPostFieldValue(body: string, key: string, value: array<char>, valueLen: nat) returns (err: EspErr)
    requires Nul !in body && Nul !in key
    requires 0 < valueLen == value.Length
    modifies value
    ensures err == EspOk || err == EspFail
    ensures err == EspOk <==> FieldValue(body, key, valueLen).Some?
    ensures err == EspOk ==>
              var v := FieldValue(body, key, valueLen).value;
              value[..|v|] == v && value[|v|] == Nul && value[|v| + 1..] == old(value[|v| + 1..])
    ensures err == EspFail ==> value[..] == old(value[..])
  {
    var i := 0;
    while i < |body|
      invariant 0 <= i <= |body|
      invariant FindField(body, key, i) == FindField(body, key, 0)
    {
      if key <= body[i..] && i + |key| < |body| && body[i + |key|] == '=' {
        assert MatchAt(body, key, i);
        assert FindField(body, key, i) == Some(i);
        var start := i + |key| + 1;
        var v := TakeValue(body[start..]);
        assert FieldValue(body, key, valueLen) == Some(v[..Min(|v|, valueLen - 1)]);
        CopyValue(value, v, valueLen);
        return EspOk;
      }
      i := i + 1;
    }
    return EspFail;
  }

  /** The strncpy of the value, cut to valueLen - 1 characters, and its terminating NUL. */
  method CopyValue(value: array<char>, v: string, valueLen: nat)
    requires 0 < valueLen == value.Length
    modifies value
    ensures var n := Min(|v|, valueLen - 1);
            value[..n] == v[..n] && value[n] == Nul && value[n + 1..] == old(value[n + 1..])
  {
    var n := Min(|v|, valueLen - 1);
    forall k | 0 <= k < n {
      value[k] := v[k];
    }
    value[n] := Nul;
    assert value[..n] == v[..n];
  }

  /** The C string a zeroed buffer holds after a successful scan is the value found. */
  lemma ScannedBuffer(buf: seq<char>, v: string)
    requires |v| < |buf| && buf[..|v|] == v && buf[|v|] == Nul && Nul !in v
    ensures CStr(buf) == v
  {
    assert buf == v + [Nul] + buf[|v| + 1..];
    CStrOfTerminated(v, buf[|v| + 1..]);
  }

  /* ---------------- atoi ---------------- */

  /** isspace in the C locale: space, \t, \n, \v, \f and \r. */
  predicate IsSpace(c: char)
  {
    c == ' ' || '\t' <= c <= '\r'
  }

  predicate IsDecimalDigit(c: char)
  {
    '0' <= c <= '9'
  }

  function SkipSpaces(s: string): (r: string)
    ensures |r| <= |s| && r == s[|s| - |r|..]
    ensures r != [] ==> !IsSpace(r[0])
    ensures forall i :: 0 <= i < |s| - |r| ==> IsSpace(s[i])
  {
    if s != [] && IsSpace(s[0]) then SkipSpaces(s[1..]) else s
  }

  /** The longest prefix of decimal digits. */
  function LeadingDigits(s: string): (r: string)
    ensures r <= s
    ensures forall i :: 0 <= i < |r| ==> IsDecimalDigit(r[i])
    ensures |r| < |s| ==> !IsDecimalDigit(s[|r|])
  {
    if s != [] && IsDecimalDigit(s[0]) then [s[0]] + LeadingDigits(s[1..]) else []
  }

  /** atoi: leading white space, an optional sign, then as many decimal digits as follow. */
  function Atoi(s: string): (r: int)
    ensures (SkipSpaces(s) == [] || SkipSpaces(s)[0] != '-') ==> r >= 0
    ensures SkipSpaces(s) != [] && SkipSpaces(s)[0] == '-' ==> r <= 0
  {
    var t := SkipSpaces(s);
    if t != [] && t[0] == '-' then -(ValueOf(LeadingDigits(t[1..]), 10) as int)
    else if t != [] && t[0] == '+' then ValueOf(LeadingDigits(t[1..]), 10)
    else ValueOf(LeadingDigits(t), 10)
  }

  /** atoi reads back every decimal rendering: the browser's sensor_mask text gives its number. */
  lemma AtoiOfDecimal(n: nat)
    ensures Atoi(Decimal(n)) == n
  {
    AtoiOfDigits(Decimal(n));
  }

  /** A non-empty run of decimal digits reads as its value. */
  lemma AtoiOfDigits(s: string)
    requires |s| >= 1 && forall i :: 0 <= i < |s| ==> IsDecimalDigit(s[i])
    ensures Atoi(s) == ValueOf(s, 10)
  {
    NoLeadingSpace(s);
    AllDigits(s);
  }

  /** A text that does not start with white space is left as it is by the skip. */
  lemma NoLeadingSpace(s: string)
    requires s != [] && !IsSpace(s[0])
    ensures SkipSpaces(s) == s
  {
  }

  lemma {:induction false} AllDigits(s: string)
    requires forall i :: 0 <= i < |s| ==> IsDecimalDigit(s[i])
    ensures LeadingDigits(s) == s
  {
    if s != [] {
      AllDigits(s[1..]);
    }
  }

  /** A value with no digits in front (a mask field left empty) reads as 0. */
  lemma AtoiOfEmpty()
    ensures Atoi("") == 0
  {
  }

  /* ---------------- parse_ap_post_request ---------------- */

  /** The five form fields, in the order they are looked up, with their buffer sizes and messages. */
  const FormKeys: seq<string> := ["sta_ssid", "sta_pass", "ap_ssid", "ap_pass", "sensor_mask"]
  const FormWidths: seq<nat> := [SsidMaxLen, PassMaxLen, SsidMaxLen, PassMaxLen, 4]
  const FormMessages: seq<string> :=
    ["Invalid SSID format", "Invalid password format", "Invalid AP SSID format",
     "Invalid AP password format", "Invalid sensor mask format"]

  /** The raw values of the five fields. */
  datatype Form = Form(staSsid: string, staPass: string, apSsid: string, apPass: string, sensorMask: string)

  datatype FormResult = MissingField(index: nat) | Complete(form: Form)

  function Field(body: string, k: nat): Option<string>
    requires k < 5
  {
    FieldValue(body, FormKeys[k], FormWidths[k])
  }

  /** The five lookups, in the order parse_ap_post_request makes them. */
  function Fields(body: string): (r: seq<Option<string>>)
    ensures |r| == 5 && forall k :: 0 <= k < 5 ==> r[k] == Field(body, k)
  {
    [Field(body, 0), Field(body, 1), Field(body, 2), Field(body, 3), Field(body, 4)]
  }

  /** The five lookups in order; the first one that fails decides the answer. */
  function ParseForm(body: string): (r: FormResult)
    ensures r.MissingField? ==> r.index < 5
  {
    ParseFields(Fields(body))
  }

  function ParseFields(fs: seq<Option<string>>): (r: FormResult)
    requires |fs| == 5
    ensures r.MissingField? ==> r.index < 5
  {
    if fs[0].None? then MissingField(0)
    else if fs[1].None? then MissingField(1)
    else if fs[2].None? then MissingField(2)
    else if fs[3].None? then MissingField(3)
    else if fs[4].None? then MissingField(4)
    else Complete(Form(fs[0].value, fs[1].value, fs[2].value, fs[3].value, fs[4].value))
  }

  /**
   * The record is written only when every field is present, and the first
   * absent field, in lookup order, names the error.
   */
  lemma ParseFormFirstMissing(body: string)
    ensures ParseForm(body).Complete? <==> forall k :: 0 <= k < 5 ==> Field(body, k).Some?
    ensures ParseForm(body).MissingField? ==>
              Field(body, ParseForm(body).index).None?
              && forall k :: 0 <= k < ParseForm(body).index ==> Field(body, k).Some?
  {
    ParseFieldsFirstMissing(Fields(body));
  }

  lemma ParseFieldsFirstMissing(fs: seq<Option<string>>)
    requires |fs| == 5
    ensures ParseFields(fs).Complete? <==> forall k :: 0 <= k < 5 ==> fs[k].Some?
    ensures ParseFields(fs).MissingField? ==>
              fs[ParseFields(fs).index].None? && forall k :: 0 <= k < ParseFields(fs).index ==> fs[k].Some?
  {
    var r := ParseFields(fs);
    var n := if r.Complete? then 5 else r.index;
    forall k | 0 <= k < n
      ensures fs[k].Some?
    {
      assert k == 0 || k == 1 || k == 2 || k == 3 || k == 4;
    }
  }

  /** Each accepted value fits its buffer: SSIDs below 32 characters, passwords below 64, the mask at most 3. */
  lemma ParsedFieldsFit(body: string)
    requires ParseForm(body).Complete?
    ensures var f := ParseForm(body).form;
            && |f.staSsid| < SsidMaxLen && |f.staPass| < PassMaxLen
            && |f.apSsid| < SsidMaxLen && |f.apPass| < PassMaxLen && |f.sensorMask| <= 3
            && (Nul !in body ==> Nul !in f.staSsid && Nul !in f.staPass && Nul !in f.apSsid && Nul !in f.apPass)
  {
    assert FormWidths[0] == SsidMaxLen && FormWidths[1] == PassMaxLen && FormWidths[4] == 4;
  }

  /** The body of a request as the handler sees it, or None when httpd_req_recv returns 0 or less. */
  function ReceivedBody(content: seq<char>, socketError: bool): (r: Option<string>)
    ensures r.Some? ==> Nul !in r.value && |r.value| < RecvBufSize
    ensures r.None? <==> socketError || content == []
    ensures !socketError && Nul !in content && 0 < |content| < RecvBufSize ==> r == Some(content)
  {
    var ret := if socketError then -1 else Min(|content|, RecvBufSize - 1);
    if ret <= 0 then None
    else
      var received := content[..ret];
      CStrOfPlain(received);
      assert |content| < RecvBufSize ==> received == content;
      Some(CStr(received))
  }

  datatype PostOutcome = ReceiveFailed | Rejected(index: nat) | Accepted(form: Form)

  function PostOutcomeOf(content: seq<char>, socketError: bool): PostOutcome
  {
    match ReceivedBody(content, socketError)
    case None => ReceiveFailed
    case Some(body) =>
      match ParseForm(body)
      case MissingField(k) => Rejected(k)
      case Complete(f) => Accepted(f)
  }

  /** send_ok_response, send_error_response and send_default_response: status, text/plain, the message. */
  function TextResponse(status: string, message: string): seq<HttpCall>
  {
    [SetStatus(status), SetType("text/plain"), Send(message)]
  }

  function NotFoundResponse(): seq<HttpCall>
  {
    TextResponse(NotFoundStatus, NotFoundBody)
  }

  /** The response parse_ap_post_request gives for each outcome. */
  function PostCalls(outcome: PostOutcome): (r: seq<HttpCall>)
    ensures |r| == 3 && r[1] == SetType("text/plain")
  {
    match outcome
    case ReceiveFailed => TextResponse("500 Internal Server Error", "Failed to receive data")
    case Rejected(k) => TextResponse("400 Bad Request", if k < 5 then FormMessages[k] else "")
    case Accepted(_) => TextResponse("200 OK", SavedMessage)
  }

  /** Every answer of the form handler has its own status, and none is the 404 answer. */
  lemma PostCallsStatus(outcome: PostOutcome)
    ensures SetStatus(NotFoundStatus) !in PostCalls(outcome)
    ensures outcome.Accepted? <==> SetStatus("200 OK") in PostCalls(outcome)
    ensures outcome.ReceiveFailed? <==> SetStatus("500 Internal Server Error") in PostCalls(outcome)
  {
    var r := PostCalls(outcome);
    assert NotFoundStatus[0] == '4' && NotFoundStatus[2] == '4';
    match outcome
    case ReceiveFailed =>
      assert r[0].status[0] == '5';
    case Rejected(_) =>
      assert r[0].status[0] == '4' && r[0].status[2] == '0';
    case Accepted(_) =>
      assert r[0].status[0] == '2';
  }

  /** The record after an accepted form: four strlcpy copies and the int8_t conversion of atoi. */
  function ApplyForm(rec: Record, f: Form): (r: Record)
    requires rec.Valid()
    ensures r.Valid()
    ensures r.staConnState == rec.staConnState && r.apConnState == rec.apConnState && r.currentIp == rec.currentIp
    ensures r.wifiState == rec.wifiState && r.startupMode == rec.startupMode
    ensures r.sensorMask == Int8Of(Atoi(f.sensorMask))
  {
    var staSsid := Strlcpy(rec.staSsid, f.staSsid);
    var staPass := Strlcpy(rec.staPass, f.staPass);
    var apSsid := Strlcpy(rec.apSsid, f.apSsid);
    var apPass := Strlcpy(rec.apPass, f.apPass);
    var mask := Int8Of(Atoi(f.sensorMask));
    rec.(staSsid := staSsid, staPass := staPass, apSsid := apSsid, apPass := apPass, sensorMask := mask)
  }

  /** An accepted form puts each submitted string into the record exactly as it was sent. */
  lemma AcceptedFormLandsInRecord(content: seq<char>, socketError: bool, rec: Record)
    requires rec.Valid() && PostOutcomeOf(content, socketError).Accepted?
    ensures var f := PostOutcomeOf(content, socketError).form;
            var r := ApplyForm(rec, f);
            && CStr(r.staSsid) == f.staSsid && CStr(r.staPass) == f.staPass
            && CStr(r.apSsid) == f.apSsid && CStr(r.apPass) == f.apPass
            && -128 <= r.sensorMask < 128
  {
    var body := ReceivedBody(content, socketError).value;
    var f := PostOutcomeOf(content, socketError).form;
    assert f == ParseForm(body).form;
    ParsedFieldsFit(body);
    StrlcpyFits(rec.staSsid, f.staSsid);
    StrlcpyFits(rec.staPass, f.staPass);
    StrlcpyFits(rec.apSsid, f.apSsid);
    StrlcpyFits(rec.apPass, f.apPass);
  }

  /** One scan of parse_ap_post_request into its zeroed local buffer, read back as a C string. */
  method ScanField(body: string, k: nat) returns (r: Option<string>)
    requires Nul !in body && k < 5
    ensures r == Field(body, k)
  {
    var buffer := new char[FormWidths[k]](_ => Nul);
    var err := GetPostFieldValue(body, FormKeys[k], buffer, buffer.Length);
    if err != EspOk {
      return None;
    }
    ScannedBuffer(buffer[..], Field(body, k).value);
    return Some(CStr(buffer[..]));
  }

  /** The five scans in order, stopping at the first missing field. */
  method ReadForm(body: string) returns (r: FormResult)
    requires Nul !in body
    ensures r == ParseForm(body)
  {
    var staSsid := ScanField(body, 0);
    if staSsid.None? {
      return MissingField(0);
    }
    var staPass := ScanField(body, 1);
    if staPass.None? {
      return MissingField(1);
    }
    var apSsid := ScanField(body, 2);
    if apSsid.None? {
      return MissingField(2);
    }
    var apPass := ScanField(body, 3);
    if apPass.None? {
      return MissingField(3);
    }
    var sensorMask := ScanField(body, 4);
    if sensorMask.None? {
      return MissingField(4);
    }
    return Complete(Form(staSsid.value, staPass.value, apSsid.value, apPass.value, sensorMask.value));
  }

  /** The reading half of parse_ap_post_request: httpd_req_recv and the five scans. */
  method ReadRequest(content: seq<char>, socketError: bool) returns (outcome: PostOutcome)
    ensures outcome == PostOutcomeOf(content, socketError)
  {
    var received := ReceivedBody(content, socketError);
    if received.None? {
      return ReceiveFailed;
    }
    var form := ReadForm(received.value);
    if form.MissingField? {
      return Rejected(form.index);
    }
    return Accepted(form.form);
  }

  /**
   * parse_ap_post_request: receive at most 511 bytes, scan the five
   * fields, and only when all are present write the record, store it, answer
   * 200, post EVENT_RESTART_REQUESTED and restart. Every answer, the errors
   * included, returns ESP_OK. restart says whether esp_restart is reached.
   */
  method ParseApPostRequest(st: SystemState, nvs: NvsFlash, events: EventLog, content: seq<char>, socketError: bool)
    returns (err: EspErr, calls: seq<HttpCall>, restart: bool)
    requires st.Valid() && nvs.Valid()
    modifies st, nvs, events
    ensures st.Valid() && nvs.Valid()
    ensures err == EspOk
    ensures calls == PostCalls(PostOutcomeOf(content, socketError))
    ensures restart <==> PostOutcomeOf(content, socketError).Accepted?
    ensures events.loopCreated == old(events.loopCreated)
    ensures !restart ==> st.Snapshot() == old(st.Snapshot()) && nvs.View() == old(nvs.View())
                         && events.posted == old(events.posted)
    ensures restart ==>
              && st.Snapshot() == ApplyForm(old(st.Snapshot()), PostOutcomeOf(content, socketError).form)
              && nvs.View() == StoreConfig(old(nvs.View()), st.Snapshot())
              && events.posted == old(events.posted) + if events.loopCreated then [RestartRequested] else []
  {
    var outcome := ReadRequest(content, socketError);
    calls, restart := AnswerOutcome(st, nvs, events, outcome);
    err := EspOk;
  }

  /**
   * The answering half of parse_ap_post_request: the answer PostCalls
   * lists for the outcome; for an accepted form also the copies into the
   * record, store_running_config and the restart event.
   */
  method AnswerOutcome(st: SystemState, nvs: NvsFlash, events: EventLog, outcome: PostOutcome)
    returns (calls: seq<HttpCall>, restart: bool)
    requires st.Valid() && nvs.Valid()
    modifies st, nvs, events
    ensures st.Valid() && nvs.Valid()
    ensures calls == PostCalls(outcome)
    ensures restart <==> outcome.Accepted?
    ensures events.loopCreated == old(events.loopCreated)
    ensures !restart ==> st.Snapshot() == old(st.Snapshot()) && nvs.View() == old(nvs.View())
                         && events.posted == old(events.posted)
    ensures restart ==>
              && st.Snapshot() == ApplyForm(old(st.Snapshot()), outcome.form)
              && nvs.View() == StoreConfig(old(nvs.View()), st.Snapshot())
              && events.posted == old(events.posted) + if events.loopCreated then [RestartRequested] else []
  {
    calls := PostCalls(outcome);
    restart := outcome.Accepted?;
    if restart {
      AcceptForm(st, nvs, events, outcome.form);
    }
  }

  /** The accepting end: the copies, store_running_config and the restart event. */
  method AcceptForm(st: SystemState, nvs: NvsFlash, events: EventLog, f: Form)
    requires st.Valid() && nvs.Valid()
    modifies st, nvs, events
    ensures st.Valid() && nvs.Valid()
    ensures events.loopCreated == old(events.loopCreated)
    ensures st.Snapshot() == ApplyForm(old(st.Snapshot()), f)
    ensures nvs.View() == StoreConfig(old(nvs.View()), st.Snapshot())
    ensures events.posted == old(events.posted) + if events.loopCreated then [RestartRequested] else []
  {
    SaveForm(st, nvs, f);
    assert st as object != events && nvs as object != events;
    events.Post(RestartRequested);
  }

  /** The copies into the record followed by store_running_config. */
  method SaveForm(st: SystemState, nvs: NvsFlash, f: Form)
    requires st.Valid() && nvs.Valid()
    modifies st, nvs
    ensures st.Valid() && nvs.Valid()
    ensures st.Snapshot() == ApplyForm(old(st.Snapshot()), f)
    ensures nvs.View() == StoreConfig(old(nvs.View()), st.Snapshot())
  {
    WriteForm(st, f);
    st.StoreRunningConfig(nvs);
  }

  /** The four strlcpy copies into the record and the int8_t store of atoi's result. */
  method WriteForm(st: SystemState, f: Form)
    requires st.Valid()
    modifies st
    ensures st.Valid()
    ensures st.Snapshot() == ApplyForm(old(st.Snapshot()), f)
  {
    var rec := ApplyForm(st.Snapshot(), f);
    st.SetCredentials(rec.staSsid, rec.staPass, rec.apSsid, rec.apPass, rec.sensorMask);
  }

  /* ---------------- send_302_redirect ---------------- */

  /** The Location header: the origin and the path through sniprintf, or the path through strlcpy, in 128 bytes. */
  function LocationHeader(location: string, prefixIP: bool): (r: string)
    ensures |r| < LocationBufSize
    ensures prefixIP ==> r <= SoftApOrigin + location && |r| == Min(|SoftApOrigin + location|, LocationBufSize - 1)
    ensures !prefixIP ==> r == CStr(location)[..Min(|CStr(location)|, LocationBufSize - 1)]
    ensures prefixIP && |SoftApOrigin + location| < LocationBufSize ==> r == SoftApOrigin + location
    ensures !prefixIP && Nul !in location && |location| < LocationBufSize ==> r == location
  {
    if prefixIP then Snprintf(SoftApOrigin + location, LocationBufSize)
    else
      CStrOfPlain(location);
      CStr(Strlcpy(Zeros(LocationBufSize, Nul), location))
  }

  /** send_302_redirect: status 302 Found, text/plain, the Location header and an empty body. */
  function Redirect302(location: string, prefixIP: bool): seq<HttpCall>
  {
    [SetStatus("302 Found"), SetType("text/plain"), SetHeader("Location", LocationHeader(location, prefixIP)),
     Send("")]
  }

  /** The captive-portal redirect of http_handler points at the settings page on the soft-AP address. */
  lemma RedirectTargetsSettingsPage()
    ensures Redirect302("/settings.html", true)[2] == SetHeader("Location", "http://192.168.4.1/settings.html")
    ensures Redirect302("/settings.html", true)[0] == SetStatus("302 Found")
  {
    assert SoftApOrigin + "/settings.html" == "http://192.168.4.1/settings.html";
  }

  /* ---------------- handlers ---------------- */

  /** What send_file_from_fatfs may meet: the scratch allocation and the failing read or send, if any. */
  datatype FileFaults = FileFaults(bufferAllocated: bool, readFault: Option<nat>, sendFault: Option<nat>)

  /** The result and calls of send_file_from_fatfs for a file and faults. */
  function FileReply(fs: FileSystem, path: string, contentType: string, faults: FileFaults): (EspErr, seq<HttpCall>)
    reads fs
  {
    if !fs.Exists(JoinPath(path)) || !faults.bufferAllocated then (EspFail, [])
    else SendPieces(Chunks(fs.files[JoinPath(path)], ScratchBufSize), contentType, faults.readFault, faults.sendFault)
  }

  /**
   * http_handler, for every URI no earlier handler claims: in AP state the
   * favicon or a redirect to the settings page, otherwise the 404 answer.
   */
  method HttpHandler(wifiState: WifiState, uri: string, fs: FileSystem, faults: FileFaults)
    returns (err: EspErr, calls: seq<HttpCall>)
    ensures wifiState == WifiAp && "/favicon.ico" <= uri ==>
              (err, calls) == FileReply(fs, "/favicon.ico", "image/x-icon", faults)
    ensures wifiState == WifiAp && !("/favicon.ico" <= uri) ==>
              err == EspOk && calls == Redirect302("/settings.html", true)
    ensures wifiState != WifiAp ==> err == EspOk && calls == NotFoundResponse()
  {
    if wifiState == WifiAp {
      if MatchUri(uri, "/favicon.ico") {
        err, calls := SendFromFatfs(fs, "/favicon.ico", "image/x-icon", faults.bufferAllocated,
                                    faults.readFault, faults.sendFault);
        return;
      }
      return EspOk, Redirect302("/settings.html", true);
    }
    return EspOk, NotFoundResponse();
  }

  /**
   * settings_http_handler: GET serves index.html, POST parses the form,
   * anything else gets the 404 answer. A POST never reaches the 404 answer,
   * because parse_ap_post_request returns ESP_OK on every path; it changes
   * the record, the partition and the event log, and restarts, exactly for
   * an accepted form.
   */
  method SettingsHttpHandler(m: Method, st: SystemState, nvs: NvsFlash, events: EventLog, fs: FileSystem,
                             content: seq<char>, socketError: bool, faults: FileFaults)
    returns (err: EspErr, calls: seq<HttpCall>, restart: bool)
    requires st.Valid() && nvs.Valid()
    modifies st, nvs, events
    ensures st.Valid() && nvs.Valid()
    ensures m == Get ==> (err, calls) == FileReply(fs, "/index.html", "text/html", faults)
    ensures m == Post ==> err == EspOk && calls == PostCalls(PostOutcomeOf(content, socketError))
                          && SetStatus(NotFoundStatus) !in calls
    ensures m == OtherMethod ==> err == EspOk && calls == NotFoundResponse()
    ensures restart ==> m == Post
    ensures m == Post ==> (restart <==> PostOutcomeOf(content, socketError).Accepted?)
    ensures events.loopCreated == old(events.loopCreated)
    ensures m == Post && restart ==>
              && st.Snapshot() == ApplyForm(old(st.Snapshot()), PostOutcomeOf(content, socketError).form)
              && nvs.View() == StoreConfig(old(nvs.View()), st.Snapshot())
              && events.posted == old(events.posted) + if events.loopCreated then [RestartRequested] else []
    ensures m == Post && !restart ==> st.Snapshot() == old(st.Snapshot()) && nvs.View() == old(nvs.View())
                                      && events.posted == old(events.posted)
    ensures m != Post ==> st.Snapshot() == old(st.Snapshot()) && nvs.View() == old(nvs.View())
                          && events.posted == old(events.posted)
  {
    restart := false;
    if m == Get {
      err, calls := SendFromFatfs(fs, "/index.html", "text/html", faults.bufferAllocated,
                                  faults.readFault, faults.sendFault);
      return;
    } else if m == Post {
      err, calls, restart := ParseApPostRequest(st, nvs, events, content, socketError);
      PostCallsStatus(PostOutcomeOf(content, socketError));
      if err == EspOk {
        return;
      }
    }
    return EspOk, NotFoundResponse(), restart;
  }

  /* ---------------- start_http_server ---------------- */

  /** The handlers start_http_server registers, tried in registration order. */
  datatype Registered = ConfigRoute | SettingsRoute | RootRoute | NoRoute

  /**
   * The three wildcard URIs registered, for config, settings and the root,
   * each match the URIs that start with the text before their trailing
   * star; the first registered match handles the request.
   */
  function Route(uri: string): (r: Registered)
    ensures r == ConfigRoute <==> "/config" <= uri
    ensures r == SettingsRoute <==> !("/config" <= uri) && "/settings" <= uri
    ensures r == NoRoute <==> !("/" <= uri)
  {
    if MatchUri(uri, "/config") then ConfigRoute
    else if MatchUri(uri, "/settings") then SettingsRoute
    else if MatchUri(uri, "/") then RootRoute
    else NoRoute
  }

  /** "/settings.html", the redirect target, is served by the settings handler, so the portal does not loop. */
  lemma RedirectTargetIsSettings()
    ensures Route("/settings.html") == SettingsRoute
    ensures Route("/favicon.ico") == RootRoute
  {
    assert !("/config" <= "/settings.html") by {
      assert "/settings.html"[1] != "/config"[1];
    }
    assert !("/config" <= "/favicon.ico") by {
      assert "/favicon.ico"[1] != "/config"[1];
    }
    assert !("/settings" <= "/favicon.ico") by {
      assert "/favicon.ico"[1] != "/settings"[1];
    }
  }
}
