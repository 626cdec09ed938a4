# zUtils core, modelled in Dafny

This project models several parts of the zUtils C++ library and proves properties about them:

- **IEEE 802.11 probe frames** (`Probe`, built on `Frame` and `Bytes`). A `ProbeRequest` or
  `ProbeResponse` assembles itself into a caller's byte buffer and disassembles itself from one. The
  fixed-size parts go through a bounds-checked cursor (`chklen`), and the elements go out as tagged
  id/length/payload triples. The model proves the round trips. Disassembling the bytes a request f
  assembles gives back f, into any object. For a response f read into a new object, the result is f
  with WMM/WME empty, since that element is neither sent nor read; read into a reused object, the
  optional elements f lacks, and WMM/WME, keep that object's old values. The model also proves the mandatory SSID and Rates rules,
  the order in which elements are staged, and that a failed assembly writes only inside the caller's
  window. `Vectors` disassembles the whole probe request and probe response captured in the
  library's unit test through the model.
- **The character LCD** (`LcdDisplay`): a `rows x cols` character grid.
  - `SetLimits` resizes the grid.
  - `Update` writes a string that wraps onto the next row at the same starting column.
  - `Clear` sets every cell to NUL.
  - The timer event handler repaints every display variable, in list order, from its column: the
    value, then spaces up to the field length.
- **The log manager** (`LogManager`): one connector slot per level, and a per-module maximum level.
  Its delivery thread hands a message to the connector of its level only when the module is
  registered and the level is within the module's maximum. As written, `RegisterConnector` with
  `LEVEL_ALL` reports success but changes no slot. The model keeps that behaviour and states it in
  `Slots`.
- **The message header** (`MessageStore`): a message's identifier and type, kept as strings under
  "Id" and "Type" in its key/value store.
- **The state machine context** (`StateContext`): the last, current and next state slots, and
  `Notify`. `Notify` advances the slots and hands the event to the new current state.
- **The two interval timers**:
  - `TimeSpec` holds the shared `_add_time` arithmetic and the timer settings.
  - `LibTimer` is the signal-driven timer in lib/zTimer.
  - `SrcTimer` is the thread-driven timer in src/zTimer.
  - In both, `Start` arms the timer with the interval as first expiry and period, `Stop` disarms it,
    and every expiry adds one to a 64-bit tick count, which is handed on in a notification.

Where the source updates an object in place, the model is a class whose methods state the new state
in terms of a specification function. The proofs about the behaviour are lemmas about those
functions. The frame buffers are `array<byte>` and the LCD grid is a `seq<seq<char>>` field.

## Model

| member | source | states |
|---|---|---|
| Bytes.FromLEOfLE | lib/zWireless/ieee80211/Probe.cpp:161-175 | reading back the little-endian bytes of a value that fits in n bytes gives the value |
| Bytes.LEOfFromLE | lib/zWireless/ieee80211/Probe.cpp:223-239 | writing back the value read from a little-endian field gives the same bytes |
| Bytes.U16OfIsFromLE | lib/zWireless/ieee80211/Probe.cpp:230 | le16toh reads a 2-byte field as its little-endian value |
| Bytes.U64OfIsFromLE | lib/zWireless/ieee80211/Probe.cpp:224 | le64toh reads an 8-byte field as its little-endian value |
| Bytes.LE16RoundTrip | lib/zWireless/ieee80211/Probe.cpp:168 | htole16 then le16toh is the identity on 16-bit values |
| Bytes.LE64RoundTrip | lib/zWireless/ieee80211/Probe.cpp:161 | htole64 then le64toh is the identity on 64-bit values |
| Bytes.U16OfRoundTrip | lib/zWireless/ieee80211/Probe.cpp:230 | le16toh then htole16 gives back the two bytes |
| Bytes.U64OfRoundTrip | lib/zWireless/ieee80211/Probe.cpp:224 | le64toh then htole64 gives back the eight bytes |
| Frame.ParseTagsBytes | lib/zWireless/ieee80211/Probe.cpp:103 | every list of elements parses back, element for element, from its own wire form |
| Frame.TagsBytesAppend | lib/zWireless/ieee80211/Probe.cpp:80 | the wire form of two lists of elements is the concatenation of their wire forms |
| Frame.FindTagFirst | lib/zWireless/ieee80211/Probe.cpp:110-116 | looking up an id finds nothing exactly when no element carries it, and otherwise the payload of the first element that does |
| Frame.StageAllIds | lib/zWireless/ieee80211/Probe.cpp:191-198 | an id that is not in the staging order is never found among the staged elements |
| Frame.FindTagAppend | lib/zWireless/ieee80211/Probe.cpp:248-268 | a lookup in a concatenation takes the first part's match, else the second part's |
| Frame.FindStaged | lib/zWireless/ieee80211/Probe.cpp:177-198 | with distinct ids, the element staged for each field is found with that field's value, or not at all when the field is absent |
| Frame.StagedInOrder | lib/zWireless/ieee80211/Probe.cpp:189-198 | staged elements keep the relative order of their ids in the staging order |
| Frame.StagedIdIn | lib/zWireless/ieee80211/Probe.cpp:177-198 | every staged element carries an id from the staging order |
| Frame.HeaderBytes | lib/zWireless/ieee80211/Probe.cpp:59 | the MAC header occupies exactly 24 bytes |
| Frame.HeaderRoundTrip | lib/zWireless/ieee80211/Probe.cpp:59-66 | parsing the 24 header bytes written for a header gives that header back |
| Frame.EmitHeader | lib/zWireless/ieee80211/Probe.cpp:59-66 | the header step succeeds iff rem covers the FCS reservation and the 24-byte header, and then writes the header bytes and takes both from rem |
| Frame.EmitTags | lib/zWireless/ieee80211/Probe.cpp:80-85 | the elements are written iff their wire form fits in rem, and rem then drops by exactly its length; a refusal never increases rem |
| Frame.Overwrite | lib/zWireless/ieee80211/Probe.cpp:161 | a write into the buffer keeps the buffer's length |
| Frame.OverwriteConfined | lib/zWireless/ieee80211/Probe.cpp:56-88 | a write inside the caller's window changes no byte outside it |
| Frame.ChkLen | lib/zWireless/ieee80211/Probe.cpp:156-160 | the cursor advances by n and takes n from rem iff n <= rem; on failure rem is unchanged |
| Frame.WriteBytes | lib/zWireless/ieee80211/Probe.cpp:161 | the buffer afterwards is the old buffer with the bytes written at the position |
| Frame.AssembleHeader | lib/zWireless/ieee80211/Probe.cpp:59-66 | the base header step on a buffer: what EmitHeader says, written at p, and nothing outside the window touched |
| Frame.DisassembleHeader | lib/zWireless/ieee80211/Probe.cpp:94-101 | the base header is read iff rem covers the FCS and the header; the pointer moves past the header and the header value is the parse of those bytes |
| Frame.AssembleTags | lib/zWireless/ieee80211/Probe.cpp:80-85 | the staged elements are written one after another as EmitTags says, and on failure only the window is touched |
| Frame.DisassembleTags | lib/zWireless/ieee80211/Probe.cpp:103-108 | the elements read are exactly the parse of the window; success consumes all of it |
| Probe.AssembleRequest | lib/zWireless/ieee80211/Probe.cpp:56-88 | a probe request is written iff SSID and Rates are present and the FCS, the header and both elements fit; the bytes are the header, SSID, then Rates |
| Probe.DisassembleRequest | lib/zWireless/ieee80211/Probe.cpp:91-119 | a frame shorter than FCS plus header is rejected unchanged; it is accepted iff its elements parse and Rates is among them, consuming everything up to the FCS |
| Probe.ReadRequestElements | lib/zWireless/ieee80211/Probe.cpp:103-116 | the element step succeeds iff the elements parse and Rates is found, and it leaves the header alone |
| Probe.RequestRoundTrip | lib/zWireless/ieee80211/Probe.cpp:56-119 | disassembling what Assemble wrote, plus any FCS trailer, gives back every field of the probe request |
| Probe.RequestSsidOptional | lib/zWireless/ieee80211/Probe.cpp:110-116 | a probe request with Rates but no SSID is accepted, and the SSID field keeps its old value |
| Probe.RequestRatesMandatory | lib/zWireless/ieee80211/Probe.cpp:110-114 | a probe request with no Rates element is rejected, whatever else it carries |
| Probe.ProbeRequest.constructor | lib/zWireless/ieee80211/Probe.cpp:46-49 | a new probe request has subtype probe request and no elements |
| Probe.ProbeRequest.Assemble | lib/zWireless/ieee80211/Probe.cpp:56-88 | the buffer method returns a pointer iff AssembleRequest succeeds, leaves rem as it says, writes exactly its bytes at p, and on failure touches only [p, p+rem) |
| Probe.ProbeRequest.Disassemble | lib/zWireless/ieee80211/Probe.cpp:91-119 | the buffer method leaves the object's fields as DisassembleRequest says, and returns a pointer iff it accepts |
| Probe.ProbeRequest.DisassembleElements | lib/zWireless/ieee80211/Probe.cpp:103-116 | the element step on the buffer, as ReadRequestElements says |
| Probe.ResponseTagFields | lib/zWireless/ieee80211/Probe.cpp:189-198 | one field per id of the response staging order |
| Probe.FixedBytes | lib/zWireless/ieee80211/Probe.cpp:156-175 | Timestamp, Interval and Capabilities take 12 bytes on the wire |
| Probe.EmitFixed | lib/zWireless/ieee80211/Probe.cpp:156-175 | the fixed fields are written iff 12 bytes are left, as little-endian timestamp, interval and capabilities |
| Probe.AssembleResponse | lib/zWireless/ieee80211/Probe.cpp:145-209 | a header refusal is passed through; success needs SSID and Rates and writes header, fixed fields and the staged elements, with rem reduced by exactly what was written |
| Probe.EmitResponseBody | lib/zWireless/ieee80211/Probe.cpp:156-206 | after the header: the fixed fields, then the staged elements, only when SSID and Rates are present |
| Probe.AssembleResponseSucceeds | lib/zWireless/ieee80211/Probe.cpp:145-209 | a probe response is assembled iff SSID and Rates are present and the FCS, header, fixed fields and all staged elements fit |
| Probe.ResponseFixedFieldsChecked | lib/zWireless/ieee80211/Probe.cpp:156-175 | with fewer than 8, 10 or 12 bytes after the header, assembly stops at Timestamp, Interval or Capabilities, with rem as the earlier fields left it |
| Probe.ResponseTagOrder | lib/zWireless/ieee80211/Probe.cpp:189-199 | the response's elements go on the wire in the fixed order SSID, Rates, DSSS, ..., ExtCaps, and WMM/WME never does |
| Probe.ReadFixed | lib/zWireless/ieee80211/Probe.cpp:223-239 | the fixed fields are read iff 12 bytes are there, as le64toh/le16toh/le16toh of their bytes; the header and the elements are untouched |
| Probe.FixedRoundTrip | lib/zWireless/ieee80211/Probe.cpp:156-175 | reading the fixed fields that were written gives back Timestamp, Interval and Capabilities |
| Probe.ReadBody | lib/zWireless/ieee80211/Probe.cpp:223-268 | what follows the header leaves the header and WMM/WME alone; an acceptance has SSID and Rates |
| Probe.ReadElements | lib/zWireless/ieee80211/Probe.cpp:241-268 | the element step succeeds iff the elements parse and both SSID and Rates are found |
| Probe.DisassembleResponseAccepts | lib/zWireless/ieee80211/Probe.cpp:212-272 | a probe response is accepted iff it holds the header and fixed fields, its elements parse to the end, and SSID and Rates are among them |
| Probe.DisassembleResponse | lib/zWireless/ieee80211/Probe.cpp:212-272 | a frame shorter than FCS plus header is rejected unchanged; WMM/WME is never taken from the frame; an accepted response has SSID and Rates and consumes everything up to the FCS |
| Probe.DisassembleResponseOf | lib/zWireless/ieee80211/Probe.cpp:212-272 | a well-formed response decodes to its header, its fixed fields, and the elements found laid over the old ones |
| Probe.ResponseRoundTrip | lib/zWireless/ieee80211/Probe.cpp:145-272 | disassembling what Assemble wrote, plus any FCS trailer, restores the header, fixed fields and every staged element; absent ones keep their old value |
| Probe.ResponseRoundTripFresh | lib/zWireless/ieee80211/Probe.cpp:134-272 | into a new frame object the round trip gives back exactly the assembled fields, with WMM/WME empty |
| Probe.ResponseMandatoryTags | lib/zWireless/ieee80211/Probe.cpp:177-187 | a probe response lacking SSID or Rates is refused by assembly and rejected by disassembly |
| Probe.ProbeResponse.constructor | lib/zWireless/ieee80211/Probe.cpp:134-138 | a new probe response has subtype probe response, zero fixed fields and no elements |
| Probe.ProbeResponse.Timestamp | lib/zWireless/ieee80211/Probe.cpp:274-278 | the stored timestamp, which is what the first eight fixed-field bytes carry, little-endian |
| Probe.ProbeResponse.SetTimestamp | lib/zWireless/ieee80211/Probe.cpp:280-285 | the timestamp is set, nothing else changes, and the result is true |
| Probe.ProbeResponse.Interval | lib/zWireless/ieee80211/Probe.cpp:287-291 | the stored beacon interval, which is what fixed-field bytes 8-9 carry, little-endian |
| Probe.ProbeResponse.SetInterval | lib/zWireless/ieee80211/Probe.cpp:293-298 | the interval is set, nothing else changes, and the result is true |
| Probe.ProbeResponse.Capabilities | lib/zWireless/ieee80211/Probe.cpp:300-304 | the stored capabilities, which is what fixed-field bytes 10-11 carry, little-endian |
| Probe.ProbeResponse.SetCapabilities | lib/zWireless/ieee80211/Probe.cpp:306-311 | the capabilities are set, nothing else changes, and the result is true |
| Probe.ProbeResponse.AssembleFixed | lib/zWireless/ieee80211/Probe.cpp:156-175 | the fixed fields on the buffer, as EmitFixed says |
| Probe.ProbeResponse.Assemble | lib/zWireless/ieee80211/Probe.cpp:145-209 | the buffer method returns a pointer iff AssembleResponse succeeds, writes exactly its bytes at p, and on failure touches only [p, p+rem) |
| Probe.ProbeResponse.AssembleBody | lib/zWireless/ieee80211/Probe.cpp:156-206 | what follows the header, on the buffer, as EmitResponseBody says |
| Probe.ProbeResponse.DisassembleFixed | lib/zWireless/ieee80211/Probe.cpp:223-239 | the fixed fields read from the buffer, as ReadFixed says |
| Probe.ProbeResponse.Disassemble | lib/zWireless/ieee80211/Probe.cpp:212-272 | the buffer method leaves the object's fields as DisassembleResponse says, and returns a pointer iff it accepts |
| Probe.ProbeResponse.DisassembleBody | lib/zWireless/ieee80211/Probe.cpp:223-268 | what follows the header, read from the buffer, as ReadBody says |
| Vectors.RadiotapLengths | test/zWireless/ieee80211/UnitTest.cpp:74 | the captured radiotap length fields read as 38 and 26 bytes |
| Vectors.CapturedRequestHeader | test/zWireless/ieee80211/UnitTest.cpp:77-80 | the captured probe request header is a broadcast management frame of subtype probe request, with its addresses and sequence control |
| Vectors.RequestElementsWire | test/zWireless/ieee80211/UnitTest.cpp:80-92 | the captured request's element bytes are the wire form of its six elements |
| Vectors.CapturedRequest | test/zWireless/ieee80211/UnitTest.cpp:72-92 | the whole 99-byte request, FCS included, disassembles to its header, the empty SSID and the eight rates, consuming 95 bytes |
| Vectors.CapturedResponseHeader | test/zWireless/ieee80211/UnitTest.cpp:102-105 | the captured probe response header is a management frame of subtype probe response, duration 0x013a |
| Vectors.CapturedResponseFixed | test/zWireless/ieee80211/UnitTest.cpp:105-107 | the captured fixed fields read as timestamp 0x0988C3669830, interval 100, capabilities 0x1411, whatever follows them |
| Vectors.ResponseElementsWire | test/zWireless/ieee80211/UnitTest.cpp:107-151 | the captured response's element bytes are the wire form of its seventeen elements |
| Vectors.ResponseFrameSlices | test/zWireless/ieee80211/UnitTest.cpp:96-152 | the response is 391 bytes: header, then fixed fields and elements up to byte 387, then the FCS |
| Vectors.ResponseElementsParse | test/zWireless/ieee80211/UnitTest.cpp:107-151 | the captured elements parse back to the seventeen elements |
| Vectors.ResponseTagsFound | test/zWireless/ieee80211/UnitTest.cpp:107-151 | SSID, Rates, DSSS, ERP information, extended rates, HT capabilities, HT operation and extended capabilities are found with their payloads; Country and Supported Operating Classes are absent |
| Vectors.CapturedResponse | test/zWireless/ieee80211/UnitTest.cpp:96-152 | the whole 391-byte response, FCS included, disassembles to its header, fixed fields and every element the probe extracts, consuming 387 bytes; absent elements and WMM/WME keep their values |
| LcdDisplay.Fit | src/zLcd/Lcd.cpp:67-70 | a resized line has exactly n cells: the old character where there was one, NUL in every new cell |
| LcdDisplay.FitRows | src/zLcd/Lcd.cpp:65 | resizing the row list gives exactly the requested number of rows |
| LcdDisplay.ResizedCells | src/zLcd/Lcd.cpp:62-72 | after SetLimits the grid is rows x cols; a cell inside both the old and the new limits keeps its character and every other cell is NUL |
| LcdDisplay.WriteRow | src/zLcd/Lcd.cpp:136-141 | writing one row keeps the row's length |
| LcdDisplay.TimesIsMul | src/zLcd/Lcd.cpp:134-142 | the row offset counted by repeated addition is the product of rows and row width |
| LcdDisplay.Updated | src/zLcd/Lcd.cpp:134-142 | Update keeps the grid's shape |
| LcdDisplay.UpdatedRow | src/zLcd/Lcd.cpp:134-142 | each written row takes its share of the string from column col0 on; every other row is unchanged |
| LcdDisplay.UpdateWritesInOrder | src/zLcd/Lcd.cpp:134-142 | character k lands in row row0 + k / (cols - col0), column col0 + k % (cols - col0), whenever that row exists |
| LcdDisplay.WriteRowPast | src/zLcd/Lcd.cpp:136 | a row whose share starts past the end of the string is unchanged |
| LcdDisplay.UpdateConfined | src/zLcd/Lcd.cpp:134-142 | Update changes no cell above row0, none left of col0, and none past the end of the string |
| LcdDisplay.TimesMono | src/zLcd/Lcd.cpp:134 | more rows mean a later start in the string |
| LcdDisplay.UpdatedTail | src/zLcd/Lcd.cpp:134 | the loop may stop once the string is used up: the remaining rows are unchanged |
| LcdDisplay.LcdVar.constructor | src/zLcd/Lcd.cpp:91-94 | a new variable has its name, row, column and length, and an empty value |
| LcdDisplay.Views | src/zLcd/Lcd.cpp:183-191 | the handler reads each variable's row, column, length and value, in list order |
| LcdDisplay.Paint | src/zLcd/Lcd.cpp:192-199 | painting n cells from col keeps the line's length and changes no cell outside [col, col + n) |
| LcdDisplay.Span | src/zLcd/Lcd.cpp:192-199 | the two repaint loops together cover max(value length, field length) columns |
| LcdDisplay.FieldText | src/zLcd/Lcd.cpp:192-199 | the repainted text is the whole value followed by spaces up to the field length, Span cells in all |
| LcdDisplay.PaintStep | src/zLcd/Lcd.cpp:192-199 | one more loop step paints the next glyph (value character or space) if that cell exists |
| LcdDisplay.PaintField | src/zLcd/Lcd.cpp:192-199 | the cells from col to the end of the field text or of the line, whichever is first, show the field text (the whole value, then spaces); every other cell is unchanged; a field starting past the line changes nothing |
| LcdDisplay.RenderVar | src/zLcd/Lcd.cpp:185-200 | repainting one variable keeps the number of rows and the length of its row, and changes no other row |
| LcdDisplay.RenderAll | src/zLcd/Lcd.cpp:183-200 | repainting all variables keeps the number of rows |
| LcdDisplay.RenderAllGrid | src/zLcd/Lcd.cpp:183-200 | repainting all variables keeps the grid rows x cols |
| LcdDisplay.WrittenColumns | src/zLcd/Lcd.cpp:192-199 | as written, the handler writes the Span columns col, col + 1, ... in order |
| LcdDisplay.RepaintOverflowsRow | src/zLcd/Lcd.cpp:89 | as written, CreateVar on a 1 x 4 grid accepts (0, 0, 2), and with value "hello" the repaint reaches column 4; it also accepts column 2^64 - 1 with length 2, whose size_t sum wraps, and the repaint writes that column |
| LcdDisplay.RepaintStaysInRow | src/zLcd/Lcd.cpp:183-200 | with writes kept to the row, repainting keeps the grid rows x cols; a cell of the variable's row inside its span shows the field text, every other cell is unchanged |
| LcdDisplay.RepaintAllStaysInRow | src/zLcd/Lcd.cpp:183-200 | repainting every variable in list order keeps the grid rows x cols; a cell no variable's span covers is unchanged, and any other cell shows the field text of the last variable in the list that covers it |
| LcdDisplay.AcceptsVarNoWrap | src/zLcd/Lcd.cpp:89 | when col + length fits in size_t, the check accepts exactly the fields that end before the last column of an existing row |
| LcdDisplay.RefreshPeriod | src/zLcd/Lcd.cpp:74-82 | the timer period is 10^6 / rate microseconds rounded down: usec * rate <= 10^6 < (usec + 1) * rate |
| LcdDisplay.Blank | src/zLcd/Lcd.cpp:156-162 | the cleared grid is rows x cols with every cell NUL |
| LcdDisplay.Without | src/zLcd/Lcd.cpp:115 | list removal never lengthens the list |
| LcdDisplay.WithoutMembers | src/zLcd/Lcd.cpp:115 | after removal, a variable is in the list iff it was before and is not the removed one |
| LcdDisplay.WithoutSingle | src/zLcd/Lcd.cpp:115 | removing from a one-element list drops it iff it is the removed variable |
| LcdDisplay.WithoutAppend | src/zLcd/Lcd.cpp:115 | removal distributes over concatenation, so the survivors keep their order |
| LcdDisplay.WriteLine | src/zLcd/Lcd.cpp:136-141 | the inner Update loop writes the row's share of the string and stops at the row's or the string's end |
| LcdDisplay.PaintLine | src/zLcd/Lcd.cpp:192-199 | the two repaint loops, skipping cells past the row's end, produce the line Paint gives for the Span columns |
| LcdDisplay.Lcd.constructor | src/zLcd/Lcd.cpp:33-39 | a new display has no rows, no columns and no variables |
| LcdDisplay.Lcd.SetLimits | src/zLcd/Lcd.cpp:62-72 | the grid becomes the resized one, and the limits the new ones |
| LcdDisplay.Lcd.CreateVar | src/zLcd/Lcd.cpp:84-107 | a variable is created iff its row exists and (col + length) mod 2^64, the size_t sum, is below the column count; it is appended to the list, otherwise nothing changes |
| LcdDisplay.Lcd.DeleteVar | src/zLcd/Lcd.cpp:109-120 | the variable is removed from the list, and the result is true |
| LcdDisplay.Lcd.Update | src/zLcd/Lcd.cpp:122-148 | true iff (row0, col0) is inside the grid; then the grid is Updated, otherwise unchanged |
| LcdDisplay.Lcd.Clear | src/zLcd/Lcd.cpp:150-168 | every cell becomes NUL, and the result is true |
| LcdDisplay.Lcd.EventHandler | src/zLcd/Lcd.cpp:170-207 | on a timer notification every variable is repainted in list order, and the result is true; otherwise nothing changes and the result is false |
| LogManager.Slots | lib/zLog/Manager.cpp:94-106 | a registration at a level writes only that level's slot, and none at all for LEVEL_ALL |
| LogManager.Manager.constructor | lib/zLog/Manager.cpp:36-42 | LEVEL_LAST empty connector slots and no registered module |
| LogManager.Manager.RegisterModule | lib/zLog/Manager.cpp:51-61 | the module's maximum becomes LEVEL_DEF |
| LogManager.Manager.UnregisterModule | lib/zLog/Manager.cpp:69-79 | true iff the module was registered; it is then forgotten |
| LogManager.Manager.RegisterConnector | lib/zLog/Manager.cpp:87-110 | true iff the level is in [LEVEL_ALL, LEVEL_LAST) and the connector is not null; then the level's slots hold it and the others are kept |
| LogManager.Manager.UnregisterConnector | lib/zLog/Manager.cpp:112-135 | true iff the level is in range; then the level's slots are emptied and the others are kept |
| LogManager.Manager.GetMaxLevel | lib/zLog/Manager.cpp:188-197 | a registered module's stored maximum, LEVEL_DEF for an unregistered module; always a settable level |
| LogManager.Manager.SetMaxLevel | lib/zLog/Manager.cpp:205-213 | a registered module's maximum changes iff the new level is strictly between LEVEL_ALL and LEVEL_LAST |
| LogManager.Manager.Recipient | lib/zLog/Manager.cpp:163-175 | a message is delivered iff its module is registered, its level is within the module's maximum and a connector is registered at that level, and it goes to that connector |
| LogManager.Manager.DeliveredLevels | lib/zLog/Manager.cpp:163-175 | a delivered message has a level above LEVEL_ALL and at most its module's maximum |
| MessageStore.ParseType | src/zMessage/Message.cpp:70-110 | a type that GetType recognises is exactly the one whose stored string was read |
| MessageStore.TypeRoundTrip | src/zMessage/Message.cpp:70-145 | every type SetType stores is read back as itself by GetType |
| MessageStore.ParseTypeErr | src/zMessage/Message.cpp:106-109 | GetType reports TYPE_ERR exactly for strings that name no type |
| MessageStore.SetTypeAsWritten | src/zMessage/Message.cpp:112-147 | as written: the result is false for every type; a type other than TYPE_ERR is still stored and read back by GetType; TYPE_ERR changes nothing; the id is untouched |
| MessageStore.SetTypeReportsFailure | src/zMessage/Message.cpp:146 | as written, setting Hello stores it (GetType gives Hello) and still returns false |
| MessageStore.Message.constructor | src/zMessage/Message.cpp:33-46 | a new message has the empty id and type None |
| MessageStore.Message.GetId | src/zMessage/Message.cpp:57-61 | the identifier stored under "Id", or the empty string when there is none |
| MessageStore.Message.GetType | src/zMessage/Message.cpp:70-110 | a type other than TYPE_ERR is the one whose string is stored under "Type"; TYPE_ERR exactly when the stored string names no type |
| MessageStore.Message.SetId | src/zMessage/Message.cpp:63-68 | the id is stored, GetId then gives it, the type is untouched, and the result is true |
| MessageStore.Message.SetType | src/zMessage/Message.cpp:112-147 | true iff the type is not TYPE_ERR; GetType then gives it; TYPE_ERR changes nothing; the id is untouched |
| StateContext.IdOf | lib/zState/StateContext.cpp:59-69 | an empty slot reports id 0, otherwise the state's own id |
| StateContext.Advance | lib/zState/StateContext.cpp:211-213 | after advancing, the current and the next slot hold the same non-null state |
| StateContext.AdvanceTwice | lib/zState/StateContext.cpp:197-228 | notifying again without a new next state puts all three slots on the same state, and then nothing moves |
| StateContext.Context.constructor | lib/zState/StateContext.cpp:41-48 | all three slots start empty |
| StateContext.Context.GetLastStateId | lib/zState/StateContext.cpp:59-69 | the last state's id, or 0 when there is none |
| StateContext.Context.SetLastState | lib/zState/StateContext.cpp:83-93 | only the last slot changes, and the result is true |
| StateContext.Context.GetStateId | lib/zState/StateContext.cpp:95-105 | the current state's id, or 0 when there is none |
| StateContext.Context.SetState | lib/zState/StateContext.cpp:119-129 | only the current slot changes, and the result is true |
| StateContext.Context.GetNextStateId | lib/zState/StateContext.cpp:131-141 | the next state's id, or 0 when there is none |
| StateContext.Context.SetNextState | lib/zState/StateContext.cpp:155-165 | only the next slot changes, and the result is true |
| StateContext.Context.Notify | lib/zState/StateContext.cpp:197-228 | with no next state nothing moves and the result is STATUS_ERR; otherwise the slots Advance and the result is the new current state's |
| StateContext.Context.SetNextStateAndNotify | lib/zState/StateContext.cpp:167-176 | stores the next state, then notifies: the last state becomes the old current one, and the new state becomes current |
| TimeSpec.Timespec.constructor | lib/zTimer/Timer.cpp:161 | a zeroed timespec |
| TimeSpec.AddTime | lib/zTimer/Timer.cpp:29-41 | the time grows by exactly us microseconds: us / 10^6 seconds plus (us mod 10^6) * 1000 nanoseconds; from zero the result is normalised |
| TimeSpec.StartSpec | lib/zTimer/Timer.cpp:155-174 | the first expiry equals the period, both normalised, both usec microseconds; the setting disarms iff usec is 0 |
| LibTimer.Timer.constructor | lib/zTimer/Timer.cpp:47-71 | interval 0, tick 0, not armed |
| LibTimer.Timer.Start | lib/zTimer/Timer.cpp:100-110 | the interval is stored and the timer armed with it, normalised, as first expiry and period; the tick is kept |
| LibTimer.Timer.Stop | lib/zTimer/Timer.cpp:112-121 | a created timer is disarmed; without one nothing changes |
| LibTimer.Timer.Notify | lib/zTimer/Timer.cpp:123-135 | the tick goes up by one modulo 2^64, and the notification carries the new tick |
| SrcTimer.TimerNotification.constructor | src/zTimer/Timer.cpp:153-156 | the notification carries the tick it was built with |
| SrcTimer.TimerNotification.Tick | src/zTimer/Timer.cpp:162-166 | the tick the notification was built with, a 64-bit count |
| SrcTimer.Timer.constructor | src/zTimer/Timer.cpp:43-68 | interval 0, tick 0, not armed |
| SrcTimer.Timer.Start | src/zTimer/Timer.cpp:85-94 | the interval is stored and the timer armed with it, normalised, as first expiry and period; the tick is kept |
| SrcTimer.Timer.Stop | src/zTimer/Timer.cpp:96-104 | the timer is disarmed, whether or not it was created |
| SrcTimer.Timer.TimerHandler | src/zTimer/Timer.cpp:106-119 | the tick goes up by one modulo 2^64, and the notification's Tick() is the new tick |

## Left out

- The ManagementFrame base class is not part of this model. Its chklen, PutTag, AssembleTags,
  DisassembleTags and GetTag are modelled from how Probe.cpp uses them:
  - a cursor that fails when n > rem;
  - one element per staged field;
  - elements parsed until the bytes run out;
  - the first element with an id wins.
  The FCS is reserved but not computed. The fourth address and the subtype check on decoding are
  not modelled.
- The radiotap header, the display (Display) methods, and the Beacon/Deauthentication frames are not
  part of this model.
- WMM/WME is neither staged nor extracted, because the source has those lines commented out. The
  model keeps the field, and it is never touched.
- Locks are taken as always succeeding (Lock, TryLock and Unlock). The branches where a lock fails are
  not modelled, so `DeleteVar` and the state setters always report true. (`SetId` takes no lock and
  returns true as written.)
- The zLog level enumeration (zLog.h) is not part of this model. The levels are 0 (LEVEL_ALL) to 6
  (LEVEL_LAST), with LEVEL_DEF = 3; only their order is used.
- LogManager: the message queue, the delivery thread's loop, the formatting of the delivered line, and
  the overloads taking a module enum (which convert it to its name) are left out. `Recipient` models
  only the delivery test.
- MessageStore: To, From and Data, the copy constructor, and the property-tree store are left out. The
  store is a map in which an absent key reads as "".
- StateContext: the state's `ObserveEvent` is outside the model. Its result is the `observed`
  parameter of `Notify`, and what it does to the context is not modelled. The `Notify(cmd)` and
  notification overloads reduce to the same `Notify`.
- LcdDisplay: the following are not part of this model:
  - the driver hooks `_update` and `_clear`;
  - command registration;
  - the refresh timer;
  - the destructor.
  `SetRefresh` is modelled only by its period computation (`RefreshPeriod`); the call that starts the
  timer is not composed with the timer model. `SetLimits` and `SetRefresh` have no return statement
  in the source, so no result is modelled for them. The event handler unlocks a lock it never took;
  that is not modelled. The handler's notification is reduced to whether it is a timer notification.
- LcdDisplay.Lcd.EventHandler: skips the cells of a repaint that lie past the end of the row, where
  the source writes out of bounds (see Findings). A variable whose row is outside the grid, which
  happens after `SetLimits` shrinks it, is skipped where the source indexes out of range.
- LcdDisplay.Paint: column arithmetic is unbounded. Where the source's size_t column would wrap to 0,
  the model paints no wrapped column.
- LcdDisplay.RefreshPeriod: excludes rate 0, on which `SetRefresh` divides by zero (Lcd.cpp:79).
- MessageStore.Message.SetType: returns the corrected status, true for every type but TYPE_ERR. The
  as-written constant `false` is `SetTypeAsWritten` (see Findings).
- TimeSpec.AddTime: tv_sec and tv_nsec are unbounded, so their 64-bit overflow is not modelled.
- LibTimer and SrcTimer: the following are outside the model:
  - timer_create, timer_settime and timer_delete, represented by the timer id and the last setting;
  - signals and the signal filter in `EventHandler`;
  - threads;
  - observers.
  The tick count is taken as 64-bit.
- LibTimer.Timer.Notify: the C++ function returns nothing despite its bool type. The model returns
  the notification instead of a status.

## Findings

| source | as written | input that shows it | evidently intended | confidence | as-written member | corrected member |
|---|---|---|---|---|---|---|
| src/zLcd/Lcd.cpp:89, 192-199 | the repaint writes max(value length, field length) cells from the variable's column, with no check against the row's end, and the CreateVar check adds column and length in size_t | on a 1 x 4 display, `CreateVar("v", 0, 0, 2)` is accepted, and with value "hello" the loop writes column 4 of a 4-column row; `CreateVar("v", 0, 2^64 - 1, 2)` is accepted because the sum wraps to 1, and the repaint writes column 2^64 - 1 | only cells of the variable's row are written | not executed | LcdDisplay.RepaintOverflowsRow | LcdDisplay.RepaintStaysInRow |
| src/zMessage/Message.cpp:146 | `SetType` returns `false` unconditionally, discarding `status` | `SetType(TYPE_HELLO)` stores "Hello", yet returns false | return `status`: true for every type but TYPE_ERR | not executed | MessageStore.SetTypeAsWritten | MessageStore.Message.SetType |
