# A verified model of the six-channel thermistor logger firmware

This project models the core of an ESP32 firmware that reads up to eight NTC
thermistors through the ADC, shows status and readings on a 20×4 character
LCD, and lets a user configure WiFi credentials and the sensor mask through a
small web server. The model also covers two web front ends: the settings page
and the React dashboard. The firmware exists in two trees. `main/` is the
current one; `esp/main/` is an older one whose server and state manager are
modelled as well, because they behave differently.

Each source file becomes one Dafny module:

- `Esp` (`esp.dfy`): status codes, C-string helpers (`strlcpy`, `strnlen`,
  `snprintf`), integer truncation, and the custom event loop as a log of
  posted events.
- `Text`, `Bits` (`text.dfy`): decimal, hexadecimal and binary rendering as
  printf and JavaScript produce them, with their read-back lemmas, and bit
  arithmetic.
- `Http` (`http.dfy`): the HTTP calls a handler makes (status, headers, body
  chunks), recorded as values.
- `NvsManager`: the NVS partition as typed maps with injected faults, and
  store_string, read_string, store_int and read_int as methods of a class.
- `StateManager`: the global `system_state` record as a class. It holds
  system_state_set/get, store_running_config and read_running_config (both as
  functions over the partition and as methods), and system_initialize.
- `FatfsManager`: the mount and send_file_from_fatfs's chunked transfer.
- `PrototypeFunctions`: test_file and the hex dump of dump_string.
- `Server`: match_uri, the get_post_field_value scan, parse_ap_post_request,
  the redirect, and the handler dispatch of the current tree.
- `LegacyServer`, `LegacyStateManager`: the older tree. Its record is a flat
  212-byte image, so that the `memcpy`s through `sizeof(value)` land exactly
  where the C code puts them.
- `WifiManager`: the STA and AP configuration, the boot and switch logic
  with its task handle, and the WiFi/IP event handler.
- `Lcd`: the 80-byte frame buffer with its cursor, the screen state machine,
  the 4-bit I2C framing, and the status-line initialisation.
- `StatusLed`, `ButtonManager`, `NtcAdc`: the LED pattern machine, the
  debounce and short/long press classifier, the ADC pattern table and the
  sample table.
- `StaSettings`: parseRadios and fillForm of the settings page, over a
  model of its radio inputs.
- `AppSlice`, `AppView`: the Redux slice and the dashboard's label
  formatter, chart series and addDataPoint.

Code that changes state in place is modelled as classes whose methods are
proved against specification functions. Pure logic is modelled as functions
and lemmas. Some constants come from headers and from the ESP-IDF
configuration, which are not part of this model:

- LCD_COLS 20 and LCD_ROWS 4;
- the row offsets 0x00, 0x40, 0x14 and 0x54;
- the backlight, enable, RS and RW bits;
- the screen enumeration;
- a tick rate of 100 Hz.

The CONFIG_DEFAULT_* values are a parameter.

## Model

| member | source | states |
|---|---|---|
| Esp.EventLog.Post | main/state_manager.c:355-368 | an event is queued, after those posted before it, exactly when the custom loop exists |
| Esp.Snprintf | main/fatfs_manager.c:94 | the text written is the longest prefix of the formatted text that leaves room for the NUL: all of it when it fits, otherwise exactly size - 1 characters |
| Esp.Strlcpy | main/server.c:168 | the buffer keeps its size and holds a NUL; its C string is the source's C string cut to size - 1 characters; the bytes after that NUL keep their old values |
| Esp.Strnlen | main/wifi_manager.c:166 | the length found is at most n, counts no NUL, and stops short of n only at a NUL |
| NvsManager.LookupString | main/nvs_manager.c:29-67 | the read succeeds exactly when the namespace opens, the key holds a string shorter than max_len and its copy does not fail, and then yields that string; a string of max_len or more characters gives ESP_ERR_NVS_INVALID_LENGTH; a failed copy is reported as ESP_OK (Dropped) |
| NvsManager.LookupInt | main/nvs_manager.c:94-109 | the status is ESP_OK or the open error, never NOT_FOUND for a missing key; the out-parameter changes only to the stored integer |
| NvsManager.StoreStringView | main/nvs_manager.c:4-27 | an uninitialised library leaves everything as it was; otherwise the namespace exists afterwards and the key holds the value exactly when the set succeeds, its error being returned otherwise; no other key changes |
| NvsManager.StoreIntView | main/nvs_manager.c:69-92 | the same for a 32-bit integer key |
| NvsManager.StoreStringThenLookup | main/nvs_manager.c:4-67 | after a successful store, a read of the same key returns the value when it fits max_len and INVALID_LENGTH when it does not |
| NvsManager.NvsFlash.ReadString | main/nvs_manager.c:29-67 | returns the status of LookupString; on success writes the string and its NUL at the front of value and returns their count, otherwise leaves value and max_len untouched |
| NvsManager.NvsFlash.ReadInt | main/nvs_manager.c:94-109 | ESP_OK exactly when the namespace opens; the new value is the stored integer when there is one, the old value otherwise |
| NvsManager.NvsFlash.StoreString | main/nvs_manager.c:4-27 | the new partition is StoreStringView's; one set call is logged when initialised; a commit only after a successful set; every handle is closed |
| NvsManager.NvsFlash.StoreInt | main/nvs_manager.c:69-92 | the new partition is StoreIntView's; a failed set returns early and leaves its handle open |
| NvsManager.NvsFlash.FlashInit | main/state_manager.c:99 | the library is initialised after nvs_flash_init returns ESP_OK; nothing else changes |
| NvsManager.NvsFlash.FlashErase | main/state_manager.c:102 | nvs_flash_erase empties the partition and de-initialises the library |
| StateManager.ZeroRecord | main/state_manager.c:11-21 | the static initialiser and the memset give a well-formed record whose four strings are empty |
| StateManager.SystemStateSet | main/state_manager.c:108-111 | the first size elements of the field come from value; the rest keep their old values |
| StateManager.SystemStateGet | main/state_manager.c:113-116 | the first size elements of the output come from the field; the rest keep their old values |
| StateManager.ZeroSizeCopyIsNoOp | main/state_manager.c:108-116 | a copy of size 0 changes nothing |
| StateManager.SetThenGet | main/state_manager.c:108-116 | getting a whole field back after setting it yields the value set |
| StateManager.ResolveString | main/state_manager.c:161-183 | a non-empty string that was read is copied into the field; an empty one, a dropped copy or NOT_FOUND gives the default, cut by strlcpy to the field size; any other error leaves the field as it was |
| StateManager.ResolveInts | main/state_manager.c:272-311 | the sensor mask stays an int8_t value; the startup mode always ends as STA or AP; a missing namespace gives 0x3F and AP; an uninitialised library keeps the mask |
| StateManager.ReadConfig | main/state_manager.c:151-311 | the record stays well-formed and the connection fields are untouched; a failed first allocation changes nothing; a full read always ends with a valid startup mode |
| StateManager.StoreFour | main/state_manager.c:123-137 | the four string stores: without faults each value lands under its own key; an uninitialised partition is untouched |
| StateManager.StoreStrings | main/state_manager.c:123-137 | the C strings of the record's four string fields are stored; the partition stays well-formed and an uninitialised one is untouched |
| StateManager.StoreConfig | main/state_manager.c:123-144 | the six stores keep the partition well-formed and leave an uninitialised one untouched |
| StateManager.StoreThenRead | main/state_manager.c:123-311 | store then reload: every string comes back as stored (an empty one as its default), the sensor mask exactly, the startup mode when it is STA or AP and AP otherwise |
| StateManager.StoreHolds | main/state_manager.c:123-144 | after the stores without faults the partition holds every field under its key |
| StateManager.IntsStored | main/state_manager.c:139-143 | the two integer stores put the mask under "sm" and the mode under "wm" and leave the strings alone |
| StateManager.ReadBackStrings | main/state_manager.c:151-270 | the four string reads of a partition that holds a record give back its strings, empty ones as their defaults |
| StateManager.ReadBackInts | main/state_manager.c:272-311 | the integer reads of a partition that holds a record give back the mask and the validated mode |
| StateManager.KeysDistinct | main/config.h:25-30 | the four string keys are pairwise different, so no store overwrites another |
| StateManager.ReloadRecordField | main/state_manager.c:161-183 | one field read back from a partition holding its C string: the string, or the default when it is empty |
| StateManager.ReloadField | main/state_manager.c:161-183 | the same for a stored string shorter than the field |
| StateManager.LongSsidKeepsField | main/state_manager.c:154-183 | a stored AP SSID of 32 or more characters fails the length check and the record keeps its previous SSID |
| StateManager.ReadBeforeInit | main/state_manager.c:89 | the read before nvs_initialize finds nothing: the record keeps its values, except that the startup mode is validated to AP |
| StateManager.FreshDeviceDefaults | main/state_manager.c:151-311 | on a partition without the namespace every field takes its default: each of the four strings is its default cut to the field, mask 0x3F and mode AP |
| StateManager.MissingIntsAsWritten | main/state_manager.c:272-299 | as written, a missing "sm" gives mask 0 instead of 0x3F, and a missing "wm" inherits the mask value as the startup mode |
| StateManager.LookupIntChecked | main/nvs_manager.c:94-109 | nvs_get_i32's own status: ESP_OK exactly when the key holds an integer, NOT_FOUND for a missing key, the value unchanged on failure |
| StateManager.ResolveIntsChecked | main/state_manager.c:272-311 | the integer reads resolved from their own statuses: a missing "sm" gives 0x3F, a missing "wm" gives AP, a present mask is read as int8_t |
| StateManager.CheckedAgreesWhenPresent | main/state_manager.c:272-311 | when both keys are present the corrected reads agree with the code |
| StateManager.SystemState.constructor | main/state_manager.c:11-21 | the global record starts all zero |
| StateManager.SystemState.Clear | main/state_manager.c:64 | the memset makes the record all zero |
| StateManager.SystemState.ReadRunningConfig | main/state_manager.c:151-311 | the new record is ReadConfig of the old record and the partition |
| StateManager.SystemState.ReadSsidFields | main/state_manager.c:151-211 | the SSID half of ReadConfig, through one zeroed 32-byte buffer |
| StateManager.SystemState.ReadPassAndIntFields | main/state_manager.c:212-311 | the password and integer half of ReadConfig |
| StateManager.ReadSsids | main/state_manager.c:151-211 | the two SSID reads keep the record well-formed |
| StateManager.ReadRest | main/state_manager.c:212-311 | the password and integer reads keep the record well-formed and leave the startup mode STA or AP |
| StateManager.SystemState.ReadIntFields | main/state_manager.c:272-311 | the mask and mode become those of ResolveInts; no other field changes |
| StateManager.SystemState.SetCredentials | main/server.c:168-172 | the four credentials and the mask are replaced; no other field changes |
| StateManager.SystemState.StoreRunningConfig | main/state_manager.c:123-144 | the partition becomes StoreConfig of the record; the keys are set in the order as, ss, ap, sp, sm, wm; each failed integer set leaks one handle |
| StateManager.SystemState.StoreStringFields | main/state_manager.c:123-137 | the four string stores, in order, with every handle closed |
| StateManager.ReadStringField | main/state_manager.c:161-183 | one string read through a zeroed buffer gives ResolveString of what read_string found |
| StateManager.NvsInitialize | main/state_manager.c:97-106 | NO_FREE_PAGES or NEW_VERSION_FOUND erase the partition and retry; any other failure aborts; after no abort the library is initialised |
| StateManager.CreateDefaultConfigFile | main/state_manager.c:40-60 | fails when no volume is mounted; otherwise writes at the start of the file, creating it, the bytes of the embedded default that write reports, and returns ESP_FAIL exactly for a negative count, so a short write is ESP_OK |
| StateManager.Landed | main/state_manager.c:50-51 | a failed write puts nothing in the file, a count up to the default's size puts exactly that many of its first bytes |
| StateManager.WriteAtStart | main/state_manager.c:50 | data written at offset 0 without truncation: the file starts with data and keeps the rest of its old content |
| StateManager.SystemInitialize | main/state_manager.c:62-95 | zero record, mount, a missing config file is created, then the record is read before and after nvs_initialize; a failed state allocation leaves the record zero |
| FatfsManager.FileSystem.Mount | main/fatfs_manager.c:144-167 | the volume is mounted exactly when the mount call succeeds; the files are not touched |
| FatfsManager.JoinPath | main/fatfs_manager.c:91-99 | the full path is base_path followed by the file path, with a "/" between them unless the file path starts with one; when that is longer than 127 characters the result is exactly its first 127 characters, the most the 128-byte buffer holds |
| FatfsManager.ChunkSizes | main/fatfs_manager.c:118-135 | every piece a read returns is non-empty and at most SCRATCH_BUFSIZE bytes long |
| FatfsManager.ChunksCoverFile | main/fatfs_manager.c:118-135 | the pieces read in turn make up the whole file |
| FatfsManager.SentDataOfChunks | main/fatfs_manager.c:125 | sending one chunk per piece carries exactly the pieces, in order |
| FatfsManager.SendFromFatfs | main/fatfs_manager.c:87-142 | ESP_FAIL with no response call when the file does not open or the buffer cannot be allocated; otherwise the outcome of the read-and-send loop over the file's pieces |
| FatfsManager.SendContent | main/fatfs_manager.c:116-141 | the read-and-send loop over an opened file's content |
| FatfsManager.SendReads | main/fatfs_manager.c:118-141 | the do-while loop: each piece is sent as a chunk; a failed read ends the loop as at end of file; a failed send ends the chunks, answers 500 and returns ESP_FAIL; otherwise the content type is set and the final empty chunk sent |
| FatfsManager.SendDeliversFile | main/fatfs_manager.c:87-142 | when nothing fails the response carries the whole file and ends with the final empty chunk |
| FatfsManager.SendSendsPrefix | main/fatfs_manager.c:118-135 | whatever read or send fails, the response carries a prefix of the file |
| PrototypeFunctions.TestFile | main/prototype_functions.c:114-127 | true exactly when stat finds the path on the mounted volume |
| PrototypeFunctions.PrintChar | main/prototype_functions.c:38-64 | one printable character for a byte in 32..126 and only then; a two-character escape exactly for \n, \r, \t and NUL; "." otherwise; the output is always printable |
| PrototypeFunctions.AsciiOf | main/prototype_functions.c:80-83 | the ASCII column of a run of bytes is one or two characters per byte |
| PrototypeFunctions.DumpString | main/prototype_functions.c:66-108 | the text printed is the header, one hex cell per byte with the ASCII column after every 16, and the padded last line |
| PrototypeFunctions.AppendCells | main/prototype_functions.c:71-86 | the main loop prints the cells of all bytes in order |
| PrototypeFunctions.AppendCell | main/prototype_functions.c:73-85 | one iteration prints "%02X ", the extra space after every eighth byte and the ASCII column after every sixteenth |
| PrototypeFunctions.AppendLastLine | main/prototype_functions.c:87-107 | the end of the dump: padding to the ASCII column, the ASCII of the partial last line and a line break, only when the length is not a multiple of 16 |
| PrototypeFunctions.AppendAscii | main/prototype_functions.c:99-102 | the inner loop prints the ASCII column of exactly the bytes of the partial line |
| PrototypeFunctions.AppendPadding | main/prototype_functions.c:89-98 | the padding loop runs the counter up to the next multiple of 16, three spaces per step and one more at each multiple of 8 |
| PrototypeFunctions.NextMultiple | main/prototype_functions.c:90 | between a non-multiple of 16 and the next multiple, only that multiple ends the loop |
| PrototypeFunctions.DumpIsPrintable | main/prototype_functions.c:66-108 | whatever the buffer holds, every character of the dump is printable or a line break |
| PrototypeFunctions.AsciiColumnAligned | main/prototype_functions.c:87-103 | the ASCII column of the partial last line starts where that of a full line does: the cells and the padding together are 50 characters wide |
| PrototypeFunctions.FullLineWidth | main/prototype_functions.c:73-77 | the hex area of a full line of 16 bytes is 50 characters wide |
| PrototypeFunctions.HalfLineWidth | main/prototype_functions.c:73-77 | eight cells from a multiple of 8 are 25 characters wide |
| Server.MatchUri | main/server.c:14-18 | true exactly when the pattern is a prefix of the URI |
| Server.FindField | main/server.c:93-112 | a position the scan returns holds the key followed by '=' |
| Server.MatchAt | main/server.c:99 | the scan position holds the field name immediately followed by '=', inside the body |
| Server.TakeValue | main/server.c:101-105 | the value runs up to the first '&' or to the end, and holds no '&' |
| Server.FieldValue | main/server.c:88-115 | a value found is shorter than value_len and holds no '&' |
| Server.FindFieldFirst | main/server.c:96-112 | the scan stops at the first matching position; when it finds none, no position matches |
| Server.FieldAbsentIff | main/server.c:88-115 | ESP_FAIL exactly when no position of the body holds the key followed by '=' |
| Server.FirstMatchWins | main/server.c:98-109 | the value is taken after the earliest "key=", cut at '&' and to value_len - 1 characters |
| Server.KeyMatchesInsideValue | main/server.c:98 | a key also matches inside another field's value: the AP SSID found in "sta_ssid=ap_ssid=x&ap_ssid=y..." is "x" |
| Server.GetPostFieldValue | main/server.c:88-115 | ESP_OK exactly when the key is found; then the value and a NUL are written at the front of the buffer and the rest is untouched; on ESP_FAIL nothing is written |
| Server.CopyValue | main/server.c:106-108 | strncpy of at most value_len - 1 characters followed by a NUL; the rest of the buffer is untouched |
| Server.ScannedBuffer | main/server.c:132-136 | the C string a zeroed buffer holds after a successful scan is the value found |
| Server.SkipSpaces | main/server.c:166 | atoi's leading white space: every skipped character is a space and the rest does not start with one |
| Server.LeadingDigits | main/server.c:166 | the longest prefix of decimal digits |
| Server.AtoiOfDecimal | main/server.c:166 | atoi reads back every decimal rendering, so the mask text the page sends gives its number |
| Server.Atoi | main/server.c:166 | the number read has the sign the text gives after its leading white space: negative only after '-' |
| Server.AtoiOfEmpty | main/server.c:166 | an empty mask value reads as 0 |
| Server.Fields | main/server.c:141-165 | the five lookups, in the order the handler makes them |
| Server.ParseFormFirstMissing | main/server.c:141-165 | the form is complete exactly when all five fields are present; otherwise the first absent field in lookup order names the error |
| Server.ParseForm | main/server.c:141-165 | a missing field is named by its position among the five lookups; completeness and which field is named are stated by ParseFormFirstMissing |
| Server.ParsedFieldsFit | main/server.c:132-136 | each accepted value fits its buffer: SSIDs below 32 characters, passwords below 64, the mask at most 3 |
| Server.ReceivedBody | main/server.c:124-131 | no body when the receive fails or returns nothing; otherwise the received text, shorter than the 512-byte buffer |
| Server.PostCalls | main/server.c:124-189 | every answer of the form handler is a status, text/plain and a message |
| Server.PostCallsStatus | main/server.c:124-189 | 200 OK exactly for an accepted form, 500 exactly for a failed receive, never 404 |
| Server.ApplyForm | main/server.c:166-172 | the accepted form changes only the four credentials and the mask; the mask is atoi's result stored as int8_t |
| Server.AcceptedFormLandsInRecord | main/server.c:168-172 | an accepted form puts each submitted string into the record exactly as it was sent |
| Server.ScanField | main/server.c:132-165 | one scan into a zeroed local buffer, read back as a C string, is the field's value |
| Server.ReadForm | main/server.c:141-165 | the five scans stop at the first missing field and give ParseForm's result |
| Server.ReadRequest | main/server.c:124-165 | the receive and the five scans give PostOutcomeOf the request |
| Server.ParseApPostRequest | main/server.c:117-190 | always ESP_OK; the answer is PostCalls of the outcome; only an accepted form changes the record, stores it, posts EVENT_RESTART_REQUESTED and restarts |
| Server.AnswerOutcome | main/server.c:126-189 | the answer for each outcome, and for an accepted form the record update, the store and the restart event |
| Server.AcceptForm | main/server.c:166-186 | the copies into the record, store_running_config and the restart event |
| Server.SaveForm | main/server.c:166-178 | the copies into the record followed by store_running_config |
| Server.WriteForm | main/server.c:166-172 | the record becomes ApplyForm of the form |
| Server.LocationHeader | main/server.c:46-56 | with the prefix the header is the soft-AP origin followed by the path, cut to exactly its first 127 characters when longer; without it the path up to its first NUL, cut the same way by strlcpy |
| Server.RedirectTargetsSettingsPage | main/server.c:246 | the captive-portal redirect is 302 Found to http://192.168.4.1/settings.html |
| Server.HttpHandler | main/server.c:234-250 | in AP state the favicon is served for /favicon.ico and everything else is redirected to the settings page; outside AP state the 404 answer |
| Server.SettingsHttpHandler | main/server.c:212-232 | GET serves index.html; POST answers the form and never reaches the 404 answer, and restarts exactly for an accepted form, after writing it into the record, storing the record and posting the restart event; a rejected POST and any other method change nothing; any other method gets the 404 answer |
| Server.Route | main/server.c:252-290 | the first registered wildcard that matches: /config*, then /settings*, then /* |
| Server.RedirectTargetIsSettings | main/server.c:246-283 | the redirect target is served by the settings handler, so the portal does not loop |
| LegacyServer.SendIndexHtml | esp/main/server.c:78-94 | the embedded favicon as image/x-icon for URIs starting with "/favicon.ico", the embedded settings page as text/html for every other URI |
| LegacyServer.ReceivedLegacyBody | esp/main/server.c:134-143 | no body exactly when the receive fails or returns nothing; otherwise a prefix of the content, shorter than the 126-byte buffer and without NUL |
| LegacyServer.OutcomeOf | esp/main/server.c:125-174 | a saved form holds an SSID of at most 32 and a password of at most 64 characters, without NUL |
| LegacyServer.BodyOutcome | esp/main/server.c:141-155 | the two scans either save the form or name the first missing field; saved values fit the 33- and 65-byte buffers less their NUL |
| LegacyServer.PostReply | esp/main/server.c:125-174 | ESP_FAIL, with nothing sent, exactly for a URI outside "/sta/save"; every other path answers with a status, text/plain and a message and returns ESP_OK |
| LegacyServer.SaveAsWritten | esp/main/server.c:160-161 | the two copies, sizeof(ssid) and sizeof(pass) bytes long, keep the record's size |
| LegacyServer.SsidCopySpills | esp/main/server.c:160 | the 33-byte SSID copy writes a NUL into the first byte of sta_pass |
| LegacyServer.SaveZeroesSensorMask | esp/main/server.c:161 | as written, the 65-byte password copy writes a NUL into sensor_mask: every accepted form sets the mask to 0, whatever it was |
| LegacyServer.SaveIntended | esp/main/server.c:160-161 | the copies sized by the record fields keep the record's size |
| LegacyServer.CutValueBuffer | esp/main/server.c:141-142 | a value buffer cut to the field width holds the value as its C string |
| LegacyServer.SaveIntendedKeepsNeighbours | esp/main/server.c:160-161 | as intended, the save writes only sta_ssid and sta_pass, whose C strings become the submitted values; sensor_mask and every other byte keep their values |
| LegacyServer.ScanField | esp/main/server.c:141-155 | ESP_OK exactly when the key is found, and then the zeroed buffer holds the value and NULs after it |
| LegacyServer.ParseApPostRequest | esp/main/server.c:125-174 | the status and answer of PostReply; the store task is spawned exactly for a saved form; the record changes only then, by the two copies as written |
| LegacyServer.ScanAndSave | esp/main/server.c:141-170 | the two scans, the copies as written and the answer, for a received body |
| LegacyServer.HttpHandler | esp/main/server.c:176-199 | always ESP_OK; the answer of HandlerCalls; the store task is spawned only for a saved POST in AP state, and only then does the record change |
| LegacyServer.HandlerDispatch | esp/main/server.c:176-199 | outside AP state every request gets 404; in AP state a GET never does, and a POST does exactly when its URI does not start with "/sta/save" |
| LegacyStateManager.Le32Unsigned | esp/main/state_manager.h:19-23 | writing a value's four bytes and reading them back gives the value reduced to uint32_t |
| LegacyStateManager.Le32RoundTrip | esp/main/state_manager.c:151-172 | an int32_t survives the four-byte copies of SYSTEM_STATE_SET and system_state_get |
| LegacyStateManager.Copy | esp/main/state_manager.c:39-42 | memcpy into the record: the bytes at the offset become the source and every other byte is kept |
| LegacyStateManager.CopyKeeps | esp/main/state_manager.c:39-42 | a copy leaves every range it does not overlap as it was |
| LegacyStateManager.ZeroBytes | esp/main/state_manager.c:5-14 | the static initialiser and the memset give an all-zero record |
| LegacyStateManager.SetFromRead | esp/main/state_manager.c:91-101 | one string read as written: ESP_OK copies the four bytes of the buffer's address into the field and keeps its other bytes; NOT_FOUND copies the default; any other status leaves the record; nothing outside the field changes |
| LegacyStateManager.LoadChannel | esp/main/state_manager.c:151-172 | the channel step changes only the ap_channel bytes |
| LegacyStateManager.ChannelClamped | esp/main/state_manager.c:151-172 | after a load past the realloc the channel is in 1..13; a stored channel in range is kept; a missing namespace gives the default, which is written back under "ac" |
| LegacyStateManager.LoadKeepsOtherFields | esp/main/state_manager.c:85-174 | a load changes only the four strings and the channel: the WiFi fields and sensor_mask keep their bytes |
| LegacyStateManager.PointerCopyAsWritten | esp/main/state_manager.c:91-96 | as written, a stored AP SSID never reaches the record: the field receives the four bytes of the heap buffer's address |
| LegacyStateManager.PointerCopyLosesSsid | esp/main/state_manager.c:91-96 | on the zeroed record of system_initialize, a stored AP SSID of 5 to 31 characters is not what the record holds afterwards |
| LegacyStateManager.BufferSizeCarriedOver | esp/main/state_manager.c:88-108 | as written, buffer_size keeps the AP SSID's stored size for the STA SSID read, so an STA SSID longer than the AP SSID is rejected although it fits the buffer, and the field keeps its bytes |
| LegacyStateManager.ResolveIntended | esp/main/state_manager.c:91-101 | one read as evidently intended: the string read is copied into the field, cut to fit; a dropped copy empties it; NOT_FOUND gives the default; other errors leave it |
| LegacyStateManager.SetIntended | esp/main/state_manager.c:91-101 | the intended read writes only its own field |
| LegacyStateManager.IntendedFields | esp/main/state_manager.c:85-149 | as intended, each string field is its own read resolved against its old bytes, with the full buffer size |
| LegacyStateManager.IntendedSsidsIndependent | esp/main/state_manager.c:104-109 | as intended, the stored STA SSID reaches the field whatever the AP SSID's length |
| LegacyStateManager.StoreReadsFreedBuffer | esp/main/state_manager.c:55-57 | after the as-written load, SYSTEM_STATE_GET in the store yields the address of the buffer the load freed, not the SSID |
| LegacyStateManager.StoreIntended | esp/main/state_manager.c:49-83 | the intended store keeps the partition well-formed |
| LegacyStateManager.KeysDistinct | esp/main/config.h:7-11 | the five keys do not overwrite each other |
| LegacyStateManager.IntendedStored | esp/main/state_manager.c:49-83 | the intended store leaves each field's C string under its key and the channel under "ac" |
| LegacyStateManager.IntendedStrings | esp/main/state_manager.c:55-75 | the four intended string stores put each value under its own key and leave the integers |
| LegacyStateManager.ReloadIntended | esp/main/state_manager.c:91-101 | a stored string read back through a buffer one byte wider than the field gives the string, cut to the field |
| LegacyStateManager.IntendedStoreThenLoad | esp/main/state_manager.c:49-174 | the intended store followed by the intended load gives every string field back, cut to the field width less its NUL, and the channel clamped to 1..13 |
| LegacyStateManager.ChannelClampedIntended | esp/main/state_manager.c:151-172 | a stored channel is kept when in 1..13 and becomes 1 otherwise |
| LegacyStateManager.LegacySystemState.Set | esp/main/state_manager.c:39-42 | the record becomes Copy of the value at the field's offset |
| LegacyStateManager.LegacySystemState.Clear | esp/main/state_manager.c:22 | the memset makes the record all zero |
| LegacyStateManager.LegacySystemState.ReadRunningConfig | esp/main/state_manager.c:85-174 | the record and the partition become LoadConfig's, for the addresses malloc and realloc return |
| LegacyStateManager.LoadConfig | esp/main/state_manager.c:85-174 | read_running_config keeps the record at its 212 bytes; its effects on each field are stated by LoadKeepsOtherFields, ChannelClamped and PointerCopyAsWritten |
| LegacyStateManager.LoadSsids | esp/main/state_manager.c:87-115 | the SSID reads keep the record at its size; what they frame is stated by SsidsKeepOthers |
| LegacyStateManager.LoadPasswords | esp/main/state_manager.c:117-149 | the password reads keep the record at its size; what they frame is stated by PasswordsKeepOthers |
| LegacyStateManager.StoreAsWritten | esp/main/state_manager.c:49-83 | store_running_config as written keeps the partition well-formed: the four strings read through the fields' pointer bytes, then the channel under "ac" |
| LegacyStateManager.StoreStringsAsWritten | esp/main/state_manager.c:51-77 | the four string stores as written, each of the C string found at the address a field's pointer bytes hold |
| LegacyStateManager.LegacySystemState.ReadSsidFields | esp/main/state_manager.c:87-115 | the record becomes LoadSsids' |
| LegacyStateManager.LegacySystemState.ReadPassFields | esp/main/state_manager.c:117-149 | the record becomes LoadPasswords' |
| LegacyStateManager.LegacySystemState.ReadField | esp/main/state_manager.c:91-102 | the record becomes SetFromRead of the read; the returned size is the stored size on success and unchanged otherwise |
| LegacyStateManager.LegacySystemState.ReadChannel | esp/main/state_manager.c:151-172 | the record and the partition become LoadChannel's |
| LegacyStateManager.LegacySystemState.StoreRunningConfig | esp/main/state_manager.c:49-83 | the partition becomes StoreAsWritten's; the keys are set in the order as, ss, ap, sp, ac |
| LegacyStateManager.LegacySystemState.StoreStrings | esp/main/state_manager.c:51-77 | the four string stores, each through the field's pointer bytes |
| LegacyStateManager.SystemInitialize | esp/main/state_manager.c:20-37 | zero record; an abort leaves it zero; otherwise the record and partition are LoadConfig of the zero record on the partition nvs_initialize leaves |
| LegacyStateManager.SsidsKeepOthers | esp/main/state_manager.c:87-115 | the SSID reads leave the WiFi fields and the sensor mask alone |
| LegacyStateManager.PasswordsKeepOthers | esp/main/state_manager.c:117-149 | the password reads leave the WiFi fields and the sensor mask alone |
| LegacyStateManager.ReloadAll | esp/main/state_manager.c:85-174 | the intended load from a fault-free partition holding a record's four C strings and channel gives back each string, cut to its field, and the channel when in 1..13 |
| WifiManager.StaConfigOf | main/wifi_manager.c:108-117 | the STA configuration holds the record's SSID and password as C strings in 32- and 64-byte fields, and accepts WPA2-PSK networks at the weakest |
| WifiManager.ApConfigOf | main/wifi_manager.c:153-171 | the AP configuration holds the record's SSID and password as C strings; ssid_len is the SSID's length; authentication is open exactly when the password is empty, WPA/WPA2-PSK otherwise; at most four stations; the given channel |
| WifiManager.BootMode | main/wifi_manager.c:203-216 | booting always leaves NONE, and reaches STA exactly when the startup mode is STA |
| WifiManager.SwitchedMode | main/wifi_manager.c:255-268 | a switch keeps NONE as NONE and otherwise changes the mode |
| WifiManager.SwitchTwice | main/wifi_manager.c:255-268 | two switches restore the mode |
| WifiManager.RequestSwitch | main/wifi_manager.c:277-287 | a request records a handle; it spawns a switch task when no handle was recorded and changes nothing when one was |
| WifiManager.FinishSwitch | main/wifi_manager.c:223-275 | when the switch task ends no task and no handle remain and the mode is switched; from NONE the task function returns, so the device aborts and reboots (one more restart) and comes back in NONE |
| WifiManager.FinishSwitchIntended | main/wifi_manager.c:223-275 | the corrected switch task clears the handle on every path and never reboots the device |
| WifiManager.ConnectGuard | main/wifi_manager.c:201-218 | booting sets the boot mode only from NONE and never touches the handle, the task or the restart count |
| WifiManager.GuardStep | main/wifi_manager.c:201-287 | no operation lowers the restart count; only a switch task finishing as written can raise it |
| WifiManager.SwitchFromNoneRestarts | main/wifi_manager.c:225-229 | as written, a long press before the mode is chosen ends in an abort and reboot back to the boot state; the corrected task ends in that state without a reboot |
| WifiManager.IntendedGuardTracksTask | main/wifi_manager.c:223-287 | with the corrected switch task the device never reboots, the handle is recorded exactly while a task exists, through any sequence of operations, and a request with no task running always spawns one |
| WifiManager.AsWrittenGuardTracksTask | main/wifi_manager.c:223-287 | as written the handle also tracks the task through any sequence, because the one path that leaves it set ends in a reboot; the restart count never falls |
| WifiManager.FinishOutsideNoneKeepsRunning | main/wifi_manager.c:231-275 | as written, a switch task that starts outside NONE ends as the corrected one does: the handle cleared and no reboot |
| WifiManager.AfterEvent | main/wifi_manager.c:35-86 | a disconnect records the reason and, because the clearing copy has size 0, keeps the old address; GOT_IP records the address and keeps the old reason; all other events change nothing |
| WifiManager.AfterEventIntended | main/wifi_manager.c:53-55 | the corrected handler clears the address to 0.0.0.0 on a disconnect and resets the reason to 0 on GOT_IP |
| WifiManager.ReconnectKeepsReason | main/wifi_manager.c:84-87 | as written, after a disconnect and a reconnect the old reason is still recorded, so the status LED goes to ERROR |
| WifiManager.IntendedReconnectShowsOk | main/wifi_manager.c:53-87 | with the corrected handler a disconnect shows 0.0.0.0 and a reconnect shows the new address and turns the status LED to OK |
| WifiManager.EventHandler | main/wifi_manager.c:17-88 | the record becomes AfterEvent of the old record, and WIFI_STATE_CHANGED is posted for every event that reaches the handler |
| WifiManager.WifiController.constructor | main/wifi_manager.c:13-15 | no netif exists, no handle or switch task, and no restart yet |
| WifiManager.WifiController.Guard | main/wifi_manager.c:13-15 | the switch guard of the WiFi state, the handle, the switch task and the restart count |
| WifiManager.WifiController.StaInit | main/wifi_manager.c:90-124 | the STA netif exists afterwards exactly when it existed before or its creation succeeds; the STA configuration is handed over only then |
| WifiManager.WifiController.ApInit | main/wifi_manager.c:126-178 | the AP netif exists afterwards exactly when it existed before or its creation succeeds; only then is 192.168.4.1 recorded as the current address and the AP configuration handed over |
| WifiManager.WifiController.Connect | main/wifi_manager.c:201-221 | from NONE it starts STA when the startup mode is STA and AP otherwise, and posts WIFI_STATE_CHANGED; from any other state it changes nothing |
| WifiManager.WifiController.SwitchMode | main/wifi_manager.c:277-287 | the guard moves as RequestSwitch says and the netifs are untouched |
| WifiManager.WifiController.SwitchTask | main/wifi_manager.c:223-275 | the guard moves as FinishSwitch says; from NONE the device reboots, so no netif, handle or task remains and nothing is posted; from STA the device ends in AP and from AP in STA, with both old netifs destroyed and WIFI_STATE_CHANGED posted |
| WifiManager.WifiController.SwitchToOtherMode | main/wifi_manager.c:231-269 | both netifs are destroyed, the other mode is started with its configuration and WIFI_STATE_CHANGED is posted; the handle is untouched |
| Lcd.Cell | main/lcd.c:315 | a column and row on the screen designate a cell inside the 80-byte buffer |
| Lcd.WrittenCell | main/lcd.c:310-340 | writing up to a screenful of characters from a cell puts character k in the cell k places on, wrapping from the last cell to the first, and leaves every other cell as it was |
| Lcd.Written | main/lcd.c:310-340 | writing keeps the 80-cell buffer; the cell each character lands in is stated by WrittenCell |
| Lcd.DdramAddress | main/lcd.c:295-296 | the display address of an on-screen cell is below 0x68 |
| Lcd.DdramAddressInjective | main/lcd.c:295-296 | different cells have different display addresses |
| Lcd.CursorCommand | main/lcd.c:296 | the command byte is 0x80 plus the cell's display address |
| Lcd.CursorCommandInjective | main/lcd.c:287-298 | different on-screen positions give different cursor commands |
| Lcd.Clamp | main/lcd.c:290-293 | a coordinate on the screen is kept and one past the edge becomes the last column or row |
| Lcd.Toggled | main/lcd.c:64-76 | a byte is sent twice, first with EN raised and then with EN dropped, the other bits unchanged |
| Lcd.FourBitFramesCarryByte | main/lcd.c:78-88 | the two latched bytes carry the high and then the low nibble of the data, so the display reassembles the byte exactly; every byte carries rs and the backlight bit, and EN goes high then low for each nibble |
| Lcd.Nibbles | main/lcd.c:78-88 | two bytes are latched per data byte |
| Lcd.FourBitFrames | main/lcd.c:78-88 | four expander bytes are sent per data byte; what they carry is stated by FourBitFramesCarryByte |
| Lcd.ScreenAfterSet | main/lcd.c:254-263 | a screen state below the maximum is kept and any other value becomes START_SCREEN |
| Lcd.NextScreen | main/lcd.c:268-277 | screens before START_SCREEN stay where they are; later ones advance by one and wrap from the last screen back to START_SCREEN |
| Lcd.NextScreensCycle | main/lcd.c:268-277 | from a cycling screen, k presses land on START_SCREEN + (offset + k) mod 5, so five presses return to the starting screen |
| Lcd.NextScreens | main/lcd.c:268-277 | any number of presses stays among the screens |
| Lcd.NextScreensFixBelowStart | main/lcd.c:270-277 | no number of presses leaves a screen before START_SCREEN |
| Lcd.BlankLine | main/lcd.c:592 | a status line after the memset is all spaces |
| Lcd.Overlay | main/lcd.c:593-604 | a memcpy into a line puts the text at its column and leaves every other character alone |
| Lcd.CopyWithMax | main/lcd.c:571-579 | the first min(size, string length) characters of the string are copied into the buffer, without a terminator, and the rest of the buffer is kept |
| Lcd.BitText | main/lcd.c:627-637 | the digits are the mask's bits, most significant first |
| Lcd.BitTextValue | main/lcd.c:627-637 | the digits, read as a binary number, add up to the weights of the set bits |
| Lcd.SensorMaskTextRoundTrip | main/lcd.c:621-637 | the sensor-mask text after "0b", read as a binary number, is the mask as an unsigned byte |
| Lcd.SensorMaskText | main/lcd.c:621-637 | the loop builds "0b" followed by bits 7 down to 0 of the mask |
| Lcd.StartupModeText | main/lcd.c:612-619 | the startup-mode text is "STA" exactly for STA startup and "AP" for every other value |
| Lcd.LabelLineText | main/lcd.c:592-604 | a label line starts with its label and is blank after it |
| Lcd.ValueLineText | main/lcd.c:608-610 | an SSID line starts with the SSID cut to 20 characters and is blank after it |
| Lcd.StartupModeLine | main/lcd.c:612-619 | the line starts with "Startup Mode:" and holds the mode text from column 14 |
| Lcd.SensorMaskLine | main/lcd.c:638 | the line starts with "Sensors:" and holds the ten-character mask text from column 9 |
| Lcd.LabelLines | main/lcd.c:592-604 | twelve lines of 20 characters, one per status line |
| Lcd.InitialStatusLines | main/lcd.c:592-638 | the two SSID lines hold the record's SSIDs, the startup-mode and sensor-mask lines their texts, and every other line its fixed label |
| Lcd.ReplaceZerosWithSpaces | main/lcd.c:53-62 | every NUL among the first length characters becomes a space and no other character changes |
| Lcd.CopyLength | main/lcd.c:348-357 | the copy stops at m characters or at the first NUL, whichever comes first, and copies no NUL |
| Lcd.CopyLengthUnique | main/lcd.c:348-357 | those stopping conditions determine the copied length uniquely |
| Lcd.Display.constructor | main/lcd.c:24-51 | the cursor at (0,0), the splash screen, the backlight bit set, no render request and blank status lines |
| Lcd.Display.SetCursor | main/lcd.c:300-308 | the cursor moves only to an on-screen position; nothing else changes |
| Lcd.Display.WriteCharacter | main/lcd.c:310-323 | only the cursor's cell changes, to the character, and the cursor moves one cell on, wrapping from the end of the last row to the start of the first |
| Lcd.Display.WriteText | main/lcd.c:325-332 | the buffer becomes Written of the old buffer with the string's characters up to its NUL, and the cursor moves on by the string's length |
| Lcd.Display.WriteBuffer | main/lcd.c:334-340 | the buffer becomes Written of the old buffer with the first size characters, NULs included, and the cursor moves on by size |
| Lcd.Display.ClearBuffer | main/lcd.c:361-365 | every cell is a space and the cursor is at (0,0) |
| Lcd.Display.CopyToLcdBuffer | main/lcd.c:342-359 | an off-screen position changes nothing; otherwise at most 20 - col characters, up to the first NUL, go into the row from col on, and the cursor moves just past them unless that is column 20 |
| Lcd.Display.CopyRun | main/lcd.c:353-357 | the loop copies CopyLength characters into consecutive cells and touches no other cell |
| Lcd.Display.SetScreenState | main/lcd.c:254-266 | the screen becomes ScreenAfterSet of the request, the buffer is cleared, the cursor homed and a render requested |
| Lcd.Display.GoToNextScreen | main/lcd.c:268-280 | the screen becomes NextScreen of the old one, the buffer is cleared, the cursor homed and a render requested |
| Lcd.Display.Send4BitData | main/lcd.c:78-88 | the four expander bytes for the data are appended to what was sent, with the current backlight bit |
| Lcd.Display.SetCursorPosition | main/lcd.c:287-298 | the command for the clamped column and row is sent as a command byte |
| Lcd.Display.ToggleBacklight | main/lcd.c:379-391 | the backlight bit is set or cleared as asked, the other bits kept, and the new status byte is sent on its own |
| Lcd.Display.StatusLineInit | main/lcd.c:582-641 | when the record copy cannot be allocated the status lines are unchanged; otherwise they become InitialStatusLines of the record with the mask text the loop builds |
| NtcAdc.Selected | main/ntc_adc.c:81-93 | the selected channels are fewer than the bound and each lies below it |
| NtcAdc.SelectedIsAscendingSetBits | main/ntc_adc.c:81-93 | the selected channels are strictly ascending and are exactly the channels whose mask bit is set, so entry k is the k-th set channel |
| NtcAdc.SelectedCountsSetBits | main/ntc_adc.c:79-94 | the pattern count equals the number of set bits among bits 0..7 of the mask |
| NtcAdc.BuildPatterns | main/ntc_adc.c:79-95 | pattern_num is the number of selected channels; entry k is the 0 dB, unit 1, 12-bit pattern of the k-th selected channel; the remaining entries stay zero |
| NtcAdc.SampleChannel | main/ntc_adc.c:133 | a conversion's channel field is below 16 |
| NtcAdc.SampleData | main/ntc_adc.c:140 | a conversion's data field is below 4096 |
| NtcAdc.SampleFieldsCoverWord | main/ntc_adc.c:132-140 | the data field and the channel field together make up the whole 16-bit conversion word |
| NtcAdc.SampleCountStep | main/ntc_adc.c:130 | the loop visits whole conversions and stops exactly after ceil(read_size / 2) of them |
| NtcAdc.Applied | main/ntc_adc.c:130-143 | applying conversions keeps eight entries, each within 16 bits |
| NtcAdc.AppliedKeepsLastSample | main/ntc_adc.c:133-141 | after the walk each entry holds the data of the last conversion naming its channel, or keeps its value when none did; conversions naming channel 8 or above change nothing |
| NtcAdc.SampleTable.constructor | main/ntc_adc.c:11 | every entry of the sample table starts at 0 |
| NtcAdc.SampleTable.GetChannelData | main/ntc_adc.c:14-28 | an index of 8 or more gives 0; any other index gives exactly the stored sample |
| NtcAdc.SampleTable.ProcessRead | main/ntc_adc.c:126-144 | a failed read leaves the table as it was; a successful one leaves it as Applied of the old table over the conversions read |
| ButtonManager.TickThresholds | main/button_manager.c:88 | at 100 Hz the debounce window is 9 ticks, a long press 300 ticks and the auto-reload timer period 10 ticks |
| ButtonManager.Elapsed | main/button_manager.c:17 | tick differences are taken modulo 2^32, so they stay correct across a wrap of the tick counter |
| ButtonManager.OnReading | main/button_manager.c:48-67 | a pressed reading starts a press at now, clears the long-press flag and starts the timer; a released reading stops the timer and, unless a long press was already reported, posts LONG for a duration of at least 300 ticks, SHORT for at least 9, and nothing otherwise |
| ButtonManager.OnTimer | main/button_manager.c:24-40 | the timer posts LONG exactly when no long press was reported, the press has lasted at least 300 ticks and the pin still reads pressed, and then records the report; otherwise nothing changes |
| ButtonManager.TimerTicksPostOnce | main/button_manager.c:24-40 | any number of timer ticks posts at most one LONG, none once a long press was reported, and never stops the timer |
| ButtonManager.StoppedTimerIsSilent | main/button_manager.c:53-57 | with the timer stopped, timer ticks change nothing |
| ButtonManager.RunAppend | main/button_manager.c:43-71 | running two sequences of steps one after the other posts the events of the first and then those of the second |
| ButtonManager.StepOf | main/button_manager.c:43-71 | one step, a reading or a timer tick, keeps the button state well-formed |
| ButtonManager.Run | main/button_manager.c:43-71 | any sequence of steps keeps the button state well-formed; how runs compose is stated by RunAppend |
| ButtonManager.OnePressOneEvent | main/button_manager.c:24-67 | one press, read once as pressed and once as released with timer ticks around it, posts at most one event, never both SHORT and LONG |
| ButtonManager.ReleaseBouncePostsTwice | main/button_manager.c:12-67 | as written, one physical press whose release bounces once more than 9 ticks after the release edge is read released twice and posts SHORT twice; with the intended release handling it posts one SHORT |
| ButtonManager.StaleReleasePostsTwice | main/button_manager.c:54-67 | as written, a second released reading is classified against the stale press_start_tick: after a press at tick 0 and a release at tick 20, a released reading at tick 400 posts LONG; the intended release handling posts nothing for it, even when it is the release of a genuinely long second press whose press edge was lost in the debounce window |
| ButtonManager.IntendedAtMostOneEventPerPress | main/button_manager.c:54-67 | when a release marks the press as reported, every press yields at most one event however its edges are read |
| ButtonManager.Button.constructor | main/button_manager.c:5-9 | press start and last ISR tick 0, no long press reported, timer stopped, queue empty |
| ButtonManager.Button.Isr | main/button_manager.c:12-21 | an edge is forwarded exactly when more than 9 ticks have passed since the last forwarded one, whose tick it then records; a full queue drops it |
| ButtonManager.Button.TaskStep | main/button_manager.c:43-71 | one queued edge is consumed, the state becomes OnReading of the old state and the events it gives are posted |
| ButtonManager.Button.TimerCallback | main/button_manager.c:24-40 | the state becomes OnTimer of the old state and its event, if any, is posted |
| StatusLed.Pattern | main/status_led.c:4-11 | every blink pattern fits in 16 bits |
| StatusLed.Int16Of | main/status_led.c:4 | the int16_t the table stores lies in the 16-bit signed range and agrees with the written pattern modulo 2^16 |
| StatusLed.Level | main/status_led.c:45 | the level driven on the pin is 0 or 1 |
| StatusLed.LevelIsPatternBit | main/status_led.c:4-11 | although patterns with bit 15 set are stored as negative int16_t values and shifted with their sign, the level is bit led_iterator of the pattern as written |
| StatusLed.SteadyStates | main/status_led.c:5-8 | LED_OK keeps the LED on and LED_OFF keeps it off, at every iterator value |
| StatusLed.NextState | main/status_led.c:51-84 | WIFI_STATE_CHANGED gives OK exactly when the connection state is 0 and ERROR otherwise; a short press gives FAST_BLINK exactly from SLOW_BLINK and SLOW_BLINK from any other state; a long press gives THREE_BLINK; any other event keeps the state |
| StatusLed.ShortPressesToggle | main/status_led.c:67-77 | two short presses in a row return a blinking LED to the blink state it started from, and lead any other state through SLOW_BLINK to FAST_BLINK |
| StatusLed.StatusLedTask.constructor | main/status_led.c:16-30 | after initialisation the state is OK, the iterator 0 and the pin low |
| StatusLed.StatusLedTask.Set | main/status_led.c:32-39 | a state below LED_MAX_STATES is kept and every other value becomes OFF; the iterator and level are untouched |
| StatusLed.StatusLedTask.HandleEvent | main/status_led.c:51-84 | the state becomes NextState of the old state, the event and the record's connection state |
| StatusLed.StatusLedTask.TaskStep | main/status_led.c:43-48 | the pin is driven with bit led_iterator of the current pattern and the iterator moves on modulo 16 |
| StaSettings.CheckedMembers | sta-settings/src/main.js:9 | the `:checked` selector keeps exactly the checked radios |
| StaSettings.Checked | sta-settings/src/main.js:9 | the selector returns no more radios than the page has, all of them checked |
| StaSettings.ParsedMaskIsOnChannels | sta-settings/src/main.js:10-20 | for channels below 31 the accumulated mask is the sum of 2^N over the channels N of the radios whose value is '1' |
| StaSettings.ParsedMask | sta-settings/src/main.js:10-20 | without a radio of value '1' the mask is 0; its bits are stated by ParsedMaskIsOnChannels |
| StaSettings.CheckedOnChannels | sta-settings/src/main.js:9-20 | the channels that contribute are those of the checked radios with value '1', whatever their order on the page |
| StaSettings.ParsedMaskBits | sta-settings/src/main.js:8-20 | bit i of the mask is set exactly when some checked radio of channel i has the value '1' |
| StaSettings.First | sta-settings/src/main.js:71-72 | querySelector finds a radio of the given channel and value when one exists, and reports none only when none exists |
| StaSettings.FirstSameShape | sta-settings/src/main.js:71-72 | which radios are checked does not change which radio querySelector finds |
| StaSettings.SetCheckedEffect | sta-settings/src/main.js:74-75 | setting `checked` changes only that radio's state, and checking it unchecks the rest of its group |
| StaSettings.SetChecked | sta-settings/src/main.js:74-75 | setting `checked` keeps the radios; its effect is stated by SetCheckedEffect |
| StaSettings.SetPairEffect | sta-settings/src/main.js:70-76 | when both radios of pair c exist, the picked one is the only checked radio of its group; otherwise nothing changes; radios of other channels are untouched |
| StaSettings.SetPair | sta-settings/src/main.js:70-76 | one iteration keeps the radios; its effect is stated by SetPairEffect |
| StaSettings.FilledFillsPairs | sta-settings/src/main.js:69-77 | after n iterations every existing pair below n has only its picked radio checked and every other radio is as it was |
| StaSettings.Filled | sta-settings/src/main.js:69-77 | the loop keeps the radios; its effect is stated by FilledFillsPairs |
| StaSettings.PickedValue | sta-settings/src/main.js:71-75 | the radio left checked carries '1' when the bit is set and '0' otherwise |
| StaSettings.FilledOnChannels | sta-settings/src/main.js:69-77 | on a page with six radio pairs the checked ON radios after the loop are exactly those of the channels switched on |
| StaSettings.FillThenParse | sta-settings/src/main.js:69-79 | fillForm followed by parseRadios reads back the configured mask's low six bits, mask & 0x3F |
| StaSettings.TextOrEmpty | sta-settings/src/main.js:31 | a missing text field shows as '' and a present one as itself |
| StaSettings.MaskFieldText | sta-settings/src/main.js:59 | the sensor_mask input is empty exactly when the mask is missing or 0, and otherwise shows the mask in decimal |
| StaSettings.LabelsReadBack | sta-settings/src/main.js:23-24 | both labels read back, after "0x" or "0b", as the mask; the binary label has at least as many digits as there are checked radios |
| StaSettings.ParseMask | sta-settings/src/main.js:8-25 | the loop returns the three texts MaskLabels gives for the checked radios |
| StaSettings.SetPairs | sta-settings/src/main.js:69-77 | the loop leaves the radios as Filled says for the set bits of the mask, with the same names and values |
| StaSettings.Page.ParseRadios | sta-settings/src/main.js:8-25 | the sensor_mask input and both labels become MaskLabels of the radios; the radios and the other inputs are unchanged |
| StaSettings.Page.FillForm | sta-settings/src/main.js:27-80 | the text inputs take their fields or '' and are enabled with the submit button, the six pairs are set from the mask's bits, and the sensor_mask input and labels are recomputed from the radios as set, so on the six-pair page the input ends holding mask & 0x3F in decimal, whatever fillForm first wrote there |
| StaSettings.Page.FillRadios | sta-settings/src/main.js:69-79 | the pairs are set from the mask's bits and the labels recomputed; the inputs are unchanged |
| AppSlice.InitChannel | frontend/app/src/store/appSlice.js:11-16 | channel i is named "Channel i", has colour i, is enabled and holds the twelve readings 22 + i to 33 + i |
| AppSlice.ChannelKeys | frontend/app/src/store/appSlice.js:10 | the keys are "ch0", "ch1", ... in order |
| AppSlice.EntriesOf | frontend/app/src/store/appSlice.js:9-17 | entry i pairs key i with the channel object built for index i |
| AppSlice.InitChannelsContents | frontend/app/src/store/appSlice.js:3-18 | initChannels yields ch0 to ch7 in order, with names, colours, enabled flags and readings as the channel builder says |
| AppSlice.InitChannels | frontend/app/src/store/appSlice.js:3-18 | one entry per colour, entry i keyed "ch" + i and holding the channel built for index i |
| AppSlice.ChannelKeyInjective | frontend/app/src/store/appSlice.js:10 | different indices give different keys |
| AppSlice.InitChannelKeysDistinct | frontend/app/src/store/appSlice.js:9-17 | the eight keys are pairwise distinct, so fromEntries keeps every channel |
| AppSlice.InitialState | frontend/app/src/store/appSlice.js:22-26 | the initial state has value 0, navState 'home' and the initial channels |
| AppSlice.Reduce | frontend/app/src/store/appSlice.js:27-43 | increment, decrement and incrementByAmount change value by 1, -1 and the payload; setNavState replaces only navState; setChannels replaces only channels |
| AppSlice.IncrementInverses | frontend/app/src/store/appSlice.js:28-36 | decrement undoes increment and the reverse, and incrementByAmount(-n) undoes incrementByAmount(n) |
| AppSlice.ReduceAllValue | frontend/app/src/store/appSlice.js:27-43 | after any sequence of actions value has moved by the sum of their changes, and channels is untouched unless setChannels was dispatched |
| AppView.JsRem | frontend/app/src/components/App.jsx:10 | JavaScript's remainder by 60 satisfies a = 60 * trunc(a / 60) + r and takes the sign of a |
| AppView.UnitsOf | frontend/app/src/components/App.jsx:8-24 | the hours are below 24, and the minutes and seconds below 60 |
| AppView.UnitsRecompose | frontend/app/src/components/App.jsx:8-24 | the days, hours, minutes and seconds add back up to the count |
| AppView.FormatIsLabel | frontend/app/src/components/App.jsx:8-24 | a non-negative count prints its units from the largest non-zero one down, each lower unit included even when zero; a negative count prints only its remainder and " s" |
| AppView.FormatIntToSeconds | frontend/app/src/components/App.jsx:8-24 | every label ends with the seconds and " s"; what comes before is stated by FormatIsLabel |
| AppView.FormatSeconds | frontend/app/src/components/App.jsx:10-12 | a count below 60 prints as "n s" |
| AppView.FormatOneHour | frontend/app/src/components/App.jsx:13-21 | 3600 prints as "1 h 0 m 0 s" |
| AppView.PointsOf | frontend/app/src/components/App.jsx:81-83 | one point per reading, in order, carrying that reading |
| AppView.SeriesOf | frontend/app/src/components/App.jsx:75-84 | one series per channel in entry order; series i is the spline drawn from channel i, with its name, colour and readings as points |
| AppView.WithNewPointEntries | frontend/app/src/components/App.jsx:135-140 | channel j keeps its key, name, colour and readings and gains exactly one reading, newDataPoint + j |
| AppView.WithNewPoint | frontend/app/src/components/App.jsx:135-140 | one entry per channel, in order; what each entry holds is stated by WithNewPointEntries |
| AppView.AddDataPoint | frontend/app/src/components/App.jsx:131-143 | the next state is the old one with setChannels of the channels, each of which gains its reading |
| AppView.SeriesAfterNewPoint | frontend/app/src/components/App.jsx:75-84 | after addDataPoint the chart has the same series, each with its old points followed by newDataPoint + j |

## Left out

- Floating point: ntc_adc_raw_to_temperature (main/ntc_adc.c:31-44), lcd_format_temperature (main/lcd.c:393-413) and the min/max/avg statistics of the temperature screen are not modelled.
- Hardware and driver calls are outside the model: I2C transmission, GPIO, ADC handles, esp_wifi, netif and DHCP. They always succeed, except where the code tests an outcome; those outcomes are inputs, such as netif creation, the ADC read status and the allocation in lcd_status_line_init.
- lcd_render, lcd_render_cycle, lcd_init_cycle, the splash, AP-mode, restarting, status and temperature screens, lcd_update_task and lcd_status_line are screen drawing and timing; only the buffer operations they call are modelled.
- lcd_event_handler and handle_wifi_state_change (main/lcd.c:90-188) are not modelled: they format the IP address with sniprintf into the status lines for display only. The rotating status_line_buffer_index is not modelled either.
- Concurrency is not modelled: FreeRTOS tasks, queues, timers, mutexes and vTaskDelay. Tasks are sequential steps; the mutexes in ntc_adc.c are taken without timeout and add nothing sequentially.
- events_init, events_subscribe and application_task are the event-loop setup. events_post is a log append (Esp.EventLog.Post).
- ButtonManager.IntendedAtMostOneEventPerPress: the corrected release handling marks every release as reported, so a second press whose press edge fell inside the debounce window posts nothing; the correction removes duplicate events, it does not recover lost edges.
- wifi_initialize, button_init, status_led_init's task creation and subscriptions, ntc_adc_initialize's ADC configuration calls, ntc_adc_start, ntc_adc_stop and the temperature tasks are registration and driver calls. They are left out beyond the state they set.
- config_http_handler (main/server.c:192-210) builds its reply with cJSON, a library outside the model.
- start_http_server's httpd configuration, dump_request, send_favicon and the HTTP transport itself are left out; responses are recorded as lists of calls.
- Logging and debug helpers are left out: log_system_state, print_file, list_dir and test_files. store_running_config_in_fatfs and read_running_config_from_fatfs are empty in the source.
- esp_restart after a saved form (main/server.c:186) is reported as a boolean result of Server.ParseApPostRequest; what happens after the restart is not modelled. In the older tree, the store task that esp/main/server.c:167 spawns is reported as a flag and its run is modelled separately.
- esp/main/nvs_manager.c is not part of this model; the older tree uses the NVS model of main/nvs_manager.c.
- The duplicates are modelled once: send_file_from_fatfs and fatfs_init from main/fatfs_manager.c, test_file from main/prototype_functions.c.
- main/wifi_manager.c:160 reads an ap_channel field that the main record does not declare; the channel is an input of WifiManager.ApConfigOf and WifiManager.WifiController.ApInit.
- LegacyStateManager.StoreAsWritten: reads each string through `peek`, one fixed picture of memory, at the address a field's pointer bytes hold. The writes that store_running_config makes through those planted addresses are not modelled. Each memset at esp/main/state_manager.c:58, :63 and :71 zeroes buffer_size bytes at the planted address, so when two fields hold the same address (both SSIDs after the as-written load) the C stores "" under "ss" where the model stores the text found there. realloc at :66 and free at :77 run on planted addresses; when a field holds text rather than a heap address that is undefined behaviour and aborts the device, which the model treats as an ordinary store.
- LegacyStateManager.StoreStringsAsWritten: the same fixed `peek`, without the memsets, realloc and free through the planted addresses.
- LegacyStateManager.LegacySystemState.StoreRunningConfig: stated through StoreAsWritten, so it shares that line's omissions.
- LegacyStateManager.LegacySystemState.StoreStrings: stated through StoreStringsAsWritten, so it shares that line's omissions.
- WifiManager.WifiController.SwitchTask: the reboot after the task returns from NONE resets the controller's statics and counts a restart; the boot that follows (system_initialize, wifi_connect) is not re-run here, and the record keeps its values.
- NtcAdc.SampleTable.GetChannelData: returns 0 for an out-of-range index, as the code does; the header's comment promising -1 (main/ntc_adc.h:47-49) is not followed.
- StaSettings.ParsedMaskIsOnChannels: stated for channels below 31, where `1 << index` is exact; radios with larger channel numbers or non-digit names are not modelled.
- The page markup with its radio inputs is not in the source; StaSettings.FillThenParse assumes the six radio pairs and no other sensor radios. DOM elements fillForm looks up are assumed present, and input[name="sensor_mask"] and #sensor_mask are taken to be one element, the input the form posts.
- JavaScript numbers are unbounded integers in the model; sensor_mask payloads that are not numbers are not modelled.
- The random draw of addDataPoint is the parameter newDataPoint of AppView.AddDataPoint. The CanvasJS legend handlers and the chart options other than the series are rendering.
- The React component tree, Navbar, Sidebar, Layout and the build configuration are rendering and tooling.
- Lcd.LabelLine and Lcd.ValueLine state only their length in their own contracts; their contents are stated by Lcd.LabelLineText and Lcd.ValueLineText.

## Findings

Every row is an input on which the code as written does something other than what its comments, logs or neighbouring code evidently intend. The as-written member exhibits the input. The corrected member proves the intended property of a corrected definition. The classes model the code as written, and the corrected definitions sit beside them.

| source | as written | input that shows it | evidently intended | confidence | as-written member | corrected member |
|---|---|---|---|---|---|---|
| main/state_manager.c:272-299 | read_int (main/nvs_manager.c:94-109) returns ESP_OK even when nvs_get_i32 fails, so when the namespace exists but a key does not, the NOT_FOUND default branch for that key does not run | a partition whose namespace exists without "sm" and "wm" | a missing mask gives 0x3F and a missing startup mode gives AP, as the log lines say | not executed | StateManager.MissingIntsAsWritten | StateManager.ResolveIntsChecked |
| esp/main/state_manager.c:91-96 | SYSTEM_STATE_SET(ap_ssid, buffer) copies sizeof(char *) bytes of the pointer, not the string | any stored AP SSID that reads back with ESP_OK | the string read is copied into the field | not executed | LegacyStateManager.PointerCopyAsWritten | LegacyStateManager.IntendedFields |
| esp/main/state_manager.c:88-108 | buffer_size, updated by the first read to the AP SSID's stored size, is passed unchanged to the STA SSID read | a stored AP SSID "ab" and a stored STA SSID "abcdef" | every read starts with a buffer size of SSID_MAX_LEN + 1 | not executed | LegacyStateManager.BufferSizeCarriedOver | LegacyStateManager.IntendedSsidsIndependent |
| esp/main/server.c:160-161 | system_state_set copies sizeof(pass), 65 bytes, into the 64-byte sta_pass, so its last byte lands on sensor_mask | any accepted form, with a non-zero sensor mask in the record | the copies fit their fields and sensor_mask is kept | not executed | LegacyServer.SaveZeroesSensorMask | LegacyServer.SaveIntendedKeepsNeighbours |
| main/wifi_manager.c:225-229 | the switch task returns from its task function in WIFI_STATE_NONE; FreeRTOS treats a returning task as a fatal error, so the device aborts and reboots | a long press before the WiFi mode is chosen | the task logs, clears the handle and deletes itself, and the device keeps running | not executed | WifiManager.SwitchFromNoneRestarts | WifiManager.IntendedGuardTracksTask |
| main/wifi_manager.c:53-85 | the "clear IP" and "reset state" copies have size 0 and change nothing | a disconnect with reason 201 followed by GOT_IP | the IP is cleared on disconnect and the reason reset on GOT_IP, so the LED returns to OK | not executed | WifiManager.ReconnectKeepsReason | WifiManager.IntendedReconnectShowsOk |
| main/button_manager.c:54-67 | a released reading classifies the press again against press_start_tick even when the press was already classified | one press: pressed read at tick 0, released at tick 20, and a release bounce at tick 30 that clears the 9-tick debounce window, giving SHORT twice | each press yields at most one event | not executed | ButtonManager.ReleaseBouncePostsTwice | ButtonManager.IntendedAtMostOneEventPerPress |
