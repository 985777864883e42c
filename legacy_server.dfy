/**
 * The HTTP server of the older firmware tree (esp/main): one wildcard
 * handler that, in AP mode, serves the embedded settings page and accepts
 * the STA credentials posted to "/sta/save". The form scanner is the same
 * code as in the main tree and is modelled once, by Server.GetPostFieldValue.
 */
module LegacyServer {
  import opened Esp
  import opened Http
  import opened LegacyStateManager
  import Server

  const SavePrefix := "/sta/save"
  const FaviconPrefix := "/favicon.ico"
  const SsidField := "ssid"
  const PasswordField := "password"

  /** sizeof(buffer) in parse_ap_post_request: SSID_MAX_LEN + PASS_MAX_LEN + 30. */
  const LegacyRecvBufSize: nat := SsidMaxLen + PassMaxLen + 30

  const SavedMessage := "STA credentials saved successfully"

  /** The files linked into the firmware image. */
  datatype Assets = Assets(indexHtml: string, favicon: string)

  /** send_index_html: the favicon for "/favicon.ico…", the settings page for every other URI. */
  function SendIndexHtml(uri: string, assets: Assets): (r: seq<HttpCall>)
    ensures Server.MatchUri(uri, FaviconPrefix) ==> r == [SetType("image/x-icon"), Send(assets.favicon)]
    ensures !Server.MatchUri(uri, FaviconPrefix) ==> r == [SetType("text/html"), Send(assets.indexHtml)]
  {
    if Server.MatchUri(uri, FaviconPrefix) then [SetType("image/x-icon"), Send(assets.favicon)]
    else [SetType("text/html"), Send(assets.indexHtml)]
  }

  /**
   * The body as parse_ap_post_request sees it: httpd_req_recv reads at most
   * sizeof(buffer) - 1 bytes (None when it returns 0 or less), and the
   * scanner stops at the first NUL.
   */
  function ReceivedLegacyBody(content: seq<char>, socketError: bool): (r: Option<string>)
    ensures r.None? <==> socketError || content == []
    ensures r.Some? ==> Nul !in r.value && |r.value| < LegacyRecvBufSize
    ensures r.Some? ==> r.value <= content
  {
    var ret := if socketError then -1 else Min(|content|, LegacyRecvBufSize - 1);
    if ret <= 0 then None
    else
      var received := content[..ret];
      assert CStr(received) <= content;
      Some(CStr(received))
  }

  /** How a request to parse_ap_post_request ends. */
  datatype LegacyOutcome =
    | NotSaveUri
    | ReceiveFailed
    | MissingSsid
    | MissingPassword
    | Saved(ssid: string, pass: string)

  function OutcomeOf(uri: string, content: seq<char>, socketError: bool): (r: LegacyOutcome)
    ensures r.Saved? ==> |r.ssid| <= SsidMaxLen && |r.pass| <= PassMaxLen && Nul !in r.ssid && Nul !in r.pass
  {
    if !Server.MatchUri(uri, SavePrefix) then NotSaveUri
    else
      match ReceivedLegacyBody(content, socketError)
      case None => ReceiveFailed
      case Some(body) => BodyOutcome(body)
  }

  /** The two field scans over a received body. */
  function BodyOutcome(body: string): (r: LegacyOutcome)
    ensures r.Saved? || r.MissingSsid? || r.MissingPassword?
    ensures r.Saved? ==> |r.ssid| <= SsidMaxLen && |r.pass| <= PassMaxLen
    ensures r.Saved? && Nul !in body ==> Nul !in r.ssid && Nul !in r.pass
  {
    match Server.FieldValue(body, SsidField, SsidMaxLen + 1)
    case None => MissingSsid
    case Some(s) =>
      match Server.FieldValue(body, PasswordField, PassMaxLen + 1)
      case None => MissingPassword
      case Some(p) => Saved(s, p)
  }

  /**
   * The status parse_ap_post_request returns and the response it sends: a
   * URI outside "/sta/save" gets ESP_FAIL and nothing; every other path
   * answers and returns ESP_OK.
   */
  function PostReply(o: LegacyOutcome): (r: (EspErr, seq<HttpCall>))
    ensures r.0 == EspFail <==> o.NotSaveUri?
    ensures r.0 == EspFail ==> r.1 == []
    ensures r.0 == EspOk ==> |r.1| == 3 && r.1[1] == SetType("text/plain")
  {
    match o
    case NotSaveUri => (EspFail, [])
    case ReceiveFailed => (EspOk, Server.TextResponse("500 Internal Server Error", "Failed to receive data"))
    case MissingSsid => (EspOk, Server.TextResponse("400 Bad Request", "Invalid SSID format"))
    case MissingPassword => (EspOk, Server.TextResponse("400 Bad Request", "Invalid password format"))
    case Saved(_, _) => (EspOk, Server.TextResponse("200 OK", SavedMessage))
  }

  /** A zero-initialised value buffer of the given size after a scan that found v. */
  function ValueBuffer(v: string, size: nat): (r: seq<char>)
    requires |v| < size
    ensures |r| == size
  {
    v + seq(size - |v|, _ => Nul)
  }

  /**
   * The two system_state_set calls as written: sizeof(ssid) = SSID_MAX_LEN + 1
   * bytes into sta_ssid and sizeof(pass) = PASS_MAX_LEN + 1 bytes into
   * sta_pass, each one byte wider than its field.
   */
  function SaveAsWritten(mem: seq<char>, ssid: string, pass: string): (r: seq<char>)
    requires |mem| == RecordSize && |ssid| <= SsidMaxLen && |pass| <= PassMaxLen
    ensures |r| == RecordSize
  {
    Copy(Copy(mem, StaSsidOffset, ValueBuffer(ssid, SsidMaxLen + 1)), StaPassOffset, ValueBuffer(pass, PassMaxLen + 1))
  }

  /** The first copy spills its last byte, a NUL, into sta_pass[0]. */
  lemma SsidCopySpills(mem: seq<char>, ssid: string)
    requires |mem| == RecordSize && |ssid| <= SsidMaxLen
    ensures Copy(mem, StaSsidOffset, ValueBuffer(ssid, SsidMaxLen + 1))[StaPassOffset] == Nul
  {
    var c := Copy(mem, StaSsidOffset, ValueBuffer(ssid, SsidMaxLen + 1));
    assert c[StaPassOffset] == c[StaSsidOffset..StaPassOffset + 1][SsidMaxLen];
  }

  /**
   * As written, every accepted form overwrites sensor_mask, the byte after
   * sta_pass, with the password buffer's last byte, which is always a NUL:
   * the mask becomes 0 (all sensors off) whatever it was.
   */
  lemma SaveZeroesSensorMask(mem: seq<char>, ssid: string, pass: string)
    requires |mem| == RecordSize && |ssid| <= SsidMaxLen && |pass| <= PassMaxLen
    ensures SaveAsWritten(mem, ssid, pass)[SensorMaskOffset] == Nul
    ensures SensorMask(SaveAsWritten(mem, ssid, pass)) == 0
    ensures SensorMask(mem) != 0 ==> SensorMask(SaveAsWritten(mem, ssid, pass)) != SensorMask(mem)
  {
    var r := SaveAsWritten(mem, ssid, pass);
    assert r[SensorMaskOffset] == r[StaPassOffset..SensorMaskOffset + 1][PassMaxLen];
  }

  /**
   * The two copies as evidently intended: sizeof the record field, so each
   * value (with its NUL when shorter than the field) lands in its own field.
   */
  function SaveIntended(mem: seq<char>, ssid: string, pass: string): (r: seq<char>)
    requires |mem| == RecordSize && |ssid| <= SsidMaxLen && |pass| <= PassMaxLen
    ensures |r| == RecordSize
  {
    Copy(Copy(mem, StaSsidOffset, ValueBuffer(ssid, SsidMaxLen + 1)[..SsidMaxLen]), StaPassOffset,
         ValueBuffer(pass, PassMaxLen + 1)[..PassMaxLen])
  }

  /** The C string of a value buffer cut to the field width is the value. */
  lemma CutValueBuffer(v: string, width: nat)
    requires |v| <= width && Nul !in v
    ensures CStr(ValueBuffer(v, width + 1)[..width]) == v
  {
    var b := ValueBuffer(v, width + 1)[..width];
    if |v| < width {
      assert b == v + [Nul] + b[|v| + 1..];
      CStrOfTerminated(v, b[|v| + 1..]);
    } else {
      assert b == v;
      CStrOfPlain(v);
    }
  }

  /**
   * As intended, the save writes only sta_ssid and sta_pass, and their C
   * strings are the submitted values; sensor_mask and every other byte keep
   * their values.
   */
  lemma SaveIntendedKeepsNeighbours(mem: seq<char>, ssid: string, pass: string)
    requires |mem| == RecordSize && |ssid| <= SsidMaxLen && |pass| <= PassMaxLen && Nul !in ssid && Nul !in pass
    ensures var r := SaveIntended(mem, ssid, pass);
            && r[..StaSsidOffset] == mem[..StaSsidOffset] && r[SensorMaskOffset..] == mem[SensorMaskOffset..]
            && CStr(FieldBytes(r, StaSsidOffset, SsidMaxLen)) == ssid
            && CStr(FieldBytes(r, StaPassOffset, PassMaxLen)) == pass
            && SensorMask(r) == SensorMask(mem)
  {
    var c := Copy(mem, StaSsidOffset, ValueBuffer(ssid, SsidMaxLen + 1)[..SsidMaxLen]);
    var r := SaveIntended(mem, ssid, pass);
    SameOutside(c, r, StaPassOffset, SensorMaskOffset, StaSsidOffset, StaPassOffset);
    SameOutside(c, r, StaPassOffset, SensorMaskOffset, 0, StaSsidOffset);
    SameOutside(mem, c, StaSsidOffset, StaPassOffset, 0, StaSsidOffset);
    SameOutside(mem, c, StaSsidOffset, StaPassOffset, SensorMaskOffset, RecordSize);
    CutValueBuffer(ssid, SsidMaxLen);
    CutValueBuffer(pass, PassMaxLen);
    assert r[SensorMaskOffset] == r[SensorMaskOffset..][0];
  }

  /**
   * One field scan of parse_ap_post_request: a zeroed buffer of the given
   * size, filled by get_post_field_value; on success it holds the value and
   * NULs after it.
   */
  method ScanField(body: string, key: string, size: nat) returns (err: EspErr, buf: seq<char>)
    requires Nul !in body && Nul !in key && 0 < size
    ensures err == EspOk || err == EspFail
    ensures err == EspOk <==> Server.FieldValue(body, key, size).Some?
    ensures err == EspOk ==> buf == ValueBuffer(Server.FieldValue(body, key, size).value, size)
  {
    var value := new char[size](_ => Nul);
    ghost var zeroed := value[..];
    err := Server.GetPostFieldValue(body, key, value, size);
    buf := value[..];
    if err == EspOk {
      ghost var v := Server.FieldValue(body, key, size).value;
      assert buf == buf[..|v|] + [buf[|v|]] + buf[|v| + 1..];
      assert buf[|v| + 1..] == zeroed[|v| + 1..];
    }
  }

  /**
   * parse_ap_post_request: for "/sta/save…", receive the body, scan "ssid"
   * and "password" into zeroed buffers of 33 and 65 bytes, copy them into
   * the record as written, and spawn the store task.
   */
  method ParseApPostRequest(st: LegacySystemState, uri: string, content: seq<char>, socketError: bool)
    returns (err: EspErr, calls: seq<HttpCall>, storeSpawned: bool)
    requires st.Valid()
    modifies st.mem
    ensures (err, calls) == PostReply(OutcomeOf(uri, content, socketError))
    ensures storeSpawned <==> OutcomeOf(uri, content, socketError).Saved?
    ensures var o := OutcomeOf(uri, content, socketError);
            st.mem[..] == if o.Saved? then SaveAsWritten(old(st.mem[..]), o.ssid, o.pass) else old(st.mem[..])
  {
    if !Server.MatchUri(uri, SavePrefix) {
      return EspFail, [], false;
    }
    var received := ReceivedLegacyBody(content, socketError);
    if received.None? {
      return EspOk, Server.TextResponse("500 Internal Server Error", "Failed to receive data"), false;
    }
    err, calls, storeSpawned := ScanAndSave(st, received.value);
  }

  /** The part of parse_ap_post_request after the body is received: the two scans, the copies, the answer. */
  method ScanAndSave(st: LegacySystemState, body: string) returns (err: EspErr, calls: seq<HttpCall>, storeSpawned: bool)
    requires st.Valid() && Nul !in body
    modifies st.mem
    ensures (err, calls) == PostReply(BodyOutcome(body))
    ensures storeSpawned <==> BodyOutcome(body).Saved?
    ensures var o := BodyOutcome(body);
            st.mem[..] == if o.Saved? then SaveAsWritten(old(st.mem[..]), o.ssid, o.pass) else old(st.mem[..])
  {
    var ssid, pass;
    err, ssid := ScanField(body, SsidField, SsidMaxLen + 1);
    if err != EspOk {
      return EspOk, Server.TextResponse("400 Bad Request", "Invalid SSID format"), false;
    }
    err, pass := ScanField(body, PasswordField, PassMaxLen + 1);
    if err != EspOk {
      return EspOk, Server.TextResponse("400 Bad Request", "Invalid password format"), false;
    }
    st.Set(StaSsidOffset, ssid);
    st.Set(StaPassOffset, pass);
    return EspOk, Server.TextResponse("200 OK", SavedMessage), true;
  }

  /** The response of http_handler for a request, given the WiFi state read from the record. */
  function HandlerCalls(wifiState: int, m: Method, uri: string, o: LegacyOutcome, assets: Assets): seq<HttpCall>
  {
    if wifiState == WifiStateAp && m == Get then SendIndexHtml(uri, assets)
    else if wifiState == WifiStateAp && m == Post && PostReply(o).0 == EspOk then PostReply(o).1
    else Server.NotFoundResponse()
  }

  /**
   * http_handler: in AP mode a GET gets send_index_html and a POST is
   * parsed; everything the parser does not answer, and every request
   * outside AP mode, gets the 404 answer.
   */
  method HttpHandler(st: LegacySystemState, m: Method, uri: string, content: seq<char>, socketError: bool, assets: Assets)
    returns (err: EspErr, calls: seq<HttpCall>, storeSpawned: bool)
    requires st.Valid()
    modifies st.mem
    ensures err == EspOk
    ensures calls == HandlerCalls(WifiState(old(st.mem[..])), m, uri, OutcomeOf(uri, content, socketError), assets)
    ensures storeSpawned <==> WifiState(old(st.mem[..])) == WifiStateAp && m == Post && OutcomeOf(uri, content, socketError).Saved?
    ensures var o := OutcomeOf(uri, content, socketError);
            st.mem[..] == if storeSpawned then SaveAsWritten(old(st.mem[..]), o.ssid, o.pass) else old(st.mem[..])
  {
    storeSpawned := false;
    if WifiState(st.mem[..]) == WifiStateAp {
      if m == Get {
        return EspOk, SendIndexHtml(uri, assets), false;
      }
      if m == Post {
        err, calls, storeSpawned := ParseApPostRequest(st, uri, content, socketError);
        if err == EspOk {
          return EspOk, calls, storeSpawned;
        }
      }
    }
    return EspOk, Server.NotFoundResponse(), storeSpawned;
  }

  /**
   * The dispatch of http_handler: outside AP mode every request gets 404;
   * in AP mode a GET never does, and a POST does exactly when its URI does
   * not start with "/sta/save".
   */
  lemma HandlerDispatch(wifiState: int, m: Method, uri: string, content: seq<char>, socketError: bool, assets: Assets)
    ensures var r := HandlerCalls(wifiState, m, uri, OutcomeOf(uri, content, socketError), assets);
            && (wifiState != WifiStateAp || m == OtherMethod ==> r == Server.NotFoundResponse())
            && (wifiState == WifiStateAp && m == Get ==> SetStatus(Server.NotFoundStatus) !in r)
            && (wifiState == WifiStateAp && m == Post ==>
                  (r == Server.NotFoundResponse() <==> !Server.MatchUri(uri, SavePrefix)))
  {
    var o := OutcomeOf(uri, content, socketError);
    var r := HandlerCalls(wifiState, m, uri, o, assets);
    if wifiState == WifiStateAp && m == Post && Server.MatchUri(uri, SavePrefix) {
      assert PostReply(o).0 == EspOk;
      assert r[2] != Server.NotFoundResponse()[2] by {
        assert Server.NotFoundBody[0] == 'H';
        match o
        case ReceiveFailed =>
        case MissingSsid =>
        case MissingPassword =>
        case Saved(_, _) =>
      }
    }
  }
}
