/**
 * Concrete frames: the probe request and the probe response captured in the
 * library's wireless unit test (test/zWireless/ieee80211/UnitTest.cpp),
 * each as the bytes after its radiotap header, read through the model.
 */
module Vectors {
  import opened Bytes
  import opened Frame
  import opened Probe

  /** The radiotap header length is little-endian at bytes 2-3: 38 for the probes, 26 for the auth frame. */
  lemma RadiotapLengths()
    ensures U16Of([0x26, 0x00]) == 38
    ensures U16Of([0x1a, 0x00]) == 26
  {
  }

  /** Element ids the captured frames carry that the probes do not extract (IEEE 802.11-2016, Table 9-77). */
  const TAG_BSSLOAD: byte := 11
  const TAG_RSN: byte := 48
  const TAG_RMCAPS: byte := 70
  const TAG_OBSSSCAN: byte := 74
  const TAG_VHTCAPS: byte := 191

  // ---------------------------------------------------------------------
  // Helpers over concrete element lists
  // ---------------------------------------------------------------------

  /** The wire form of the elements from k on: element k, then the rest. */
  lemma TagsBytesFrom(ts: seq<Tag>, k: nat)
    requires k < |ts|
    ensures TagsBytes(ts[k..]) == TagBytes(ts[k]) + TagsBytes(ts[k + 1..])
  {
    assert ts[k..][1..] == ts[k + 1..];
  }

  /** The first of two look-ups that finds something. */
  function OrElse(x: Option<Payload>, y: Option<Payload>): (r: Option<Payload>)
    ensures r.Some? <==> x.Some? || y.Some?
  {
    if x.Some? then x else y
  }

  /** FindTag in a list of at most three elements, written out. */
  lemma FindTagShort(ts: seq<Tag>)
    requires |ts| <= 3
    ensures forall id :: FindTag(ts, id) ==
                         if |ts| > 0 && ts[0].id == id then Some(ts[0].payload)
                         else if |ts| > 1 && ts[1].id == id then Some(ts[1].payload)
                         else if |ts| > 2 && ts[2].id == id then Some(ts[2].payload)
                         else None
  {
    if |ts| > 1 {
      assert ts[1..][1..] == ts[2..];
    }
    if |ts| > 2 {
      assert ts[2..][1..] == [];
    }
  }

  /** FindTag in six lists one after the other: the first list that has the id answers. */
  lemma FindTagGroups(a: seq<Tag>, b: seq<Tag>, c: seq<Tag>, d: seq<Tag>, e: seq<Tag>, f: seq<Tag>)
    ensures forall id :: FindTag(a + b + c + d + e + f, id) ==
                         OrElse(FindTag(a, id), OrElse(FindTag(b, id), OrElse(FindTag(c, id),
                         OrElse(FindTag(d, id), OrElse(FindTag(e, id), FindTag(f, id))))))
  {
    forall id
      ensures FindTag(a + b + c + d + e + f, id) ==
              OrElse(FindTag(a, id), OrElse(FindTag(b, id), OrElse(FindTag(c, id),
              OrElse(FindTag(d, id), OrElse(FindTag(e, id), FindTag(f, id))))))
    {
      FindTagAppend(a + b + c + d + e, f, id);
      FindTagAppend(a + b + c + d, e, id);
      FindTagAppend(a + b + c, d, id);
      FindTagAppend(a + b, c, id);
      FindTagAppend(a, b, id);
    }
  }

  /** FindTag returns element k when it is the first with its id. */
  lemma FindAt(ts: seq<Tag>, k: nat, id: byte)
    requires k < |ts| && ts[k].id == id
    requires forall j :: 0 <= j < k ==> ts[j].id != id
    ensures FindTag(ts, id) == Some(ts[k].payload)
  {
    FindTagFirst(ts, id);
    var i :| 0 <= i < |ts| && ts[i].id == id && ts[i].payload == FindTag(ts, id).value &&
             forall j :: 0 <= j < i ==> ts[j].id != id;
    assert i == k;
  }

  // ---------------------------------------------------------------------
  // The captured probe request (99 bytes after the radiotap header)
  // ---------------------------------------------------------------------

  const REQUEST_HEADER: seq<byte> :=
    [0x40, 0x00, 0x00, 0x00, 0xff, 0xff, 0xff, 0xff, 0xff, 0xff, 0x00, 0x11,
     0x22, 0x33, 0x44, 0x55, 0xff, 0xff, 0xff, 0xff, 0xff, 0xff, 0xd0, 0xba]

  /** Frame control 0x40: a management frame of subtype probe request, broadcast. */
  const REQUEST_HEADER_FIELDS: Header :=
    Header(FrameControl(0, TYPE_MANAGEMENT, SUBTYPE_PROBEREQ, 0), 0,
           [0xff, 0xff, 0xff, 0xff, 0xff, 0xff], [0x00, 0x11, 0x22, 0x33, 0x44, 0x55],
           [0xff, 0xff, 0xff, 0xff, 0xff, 0xff], 0xbad0)

  lemma CapturedRequestHeader()
    ensures ParseHeader(REQUEST_HEADER) == REQUEST_HEADER_FIELDS
  {
    var q := REQUEST_HEADER;
    assert q[0..2] == [q[0], q[1]] == [0x40, 0x00];
    assert q[22..24] == [q[22], q[23]] == [0xd0, 0xba];
    assert q[2..4] == [q[2], q[3]] == [0x00, 0x00];
    assert q[4..10] == [0xff, 0xff, 0xff, 0xff, 0xff, 0xff];
    assert q[10..16] == [0x00, 0x11, 0x22, 0x33, 0x44, 0x55];
    assert q[16..22] == [0xff, 0xff, 0xff, 0xff, 0xff, 0xff];
  }

  /** The element payloads: a zero-length (wildcard) SSID, rates, HT capabilities, extended rates, extended and VHT capabilities. */
  const EMPTY: Payload := []
  const REQUEST_RATES: Payload :=
    [0x02, 0x04, 0x0b, 0x0c, 0x12, 0x16, 0x18, 0x24]
  const REQUEST_HTCAPS: seq<byte> :=
    [0x62, 0x01, 0x03, 0x00, 0x00, 0x00, 0x00, 0x01, 0x00, 0x00, 0x00, 0x00] +
    [0x00, 0x00, 0x00, 0x00, 0x00, 0x00, 0x00, 0x00, 0x00, 0x08, 0xe0, 0xe1] +
    [0x09, 0x00]
  const REQUEST_EXTRATES: seq<byte> :=
    [0x30, 0x48, 0x60, 0x6c]
  const REQUEST_EXTCAPS: seq<byte> :=
    [0x00, 0x00, 0x00, 0x00, 0x01, 0x00, 0x00, 0x40, 0x00]
  const REQUEST_VHTCAPS: seq<byte> :=
    [0xb0, 0x71, 0xc0, 0x33, 0xf0, 0xff, 0x49, 0x02, 0xf0, 0xff, 0x49, 0x02]

  const REQUEST_TAGS_1: seq<Tag> :=
    [Tag(TAG_SSID, EMPTY),
     Tag(TAG_RATES, REQUEST_RATES),
     Tag(TAG_HTCAPS, REQUEST_HTCAPS)]

  const REQUEST_ELEMENTS_1: seq<byte> :=
    [0x00, 0x00] + EMPTY +
    [0x01, 0x08] + REQUEST_RATES +
    [0x2d, 0x1a] + REQUEST_HTCAPS

  /** The wire form of group 1 of the request elements is the captured bytes. */
  lemma RequestWire1()
    ensures TagsBytes(REQUEST_TAGS_1) == REQUEST_ELEMENTS_1
  {
    var ts := REQUEST_TAGS_1;
    assert TagBytes(ts[0]) == [0x00, 0x00] + EMPTY;
    assert TagBytes(ts[1]) == [0x01, 0x08] + REQUEST_RATES;
    assert TagBytes(ts[2]) == [0x2d, 0x1a] + REQUEST_HTCAPS;
    assert ts[3..] == [];
    TagsBytesFrom(ts, 2);
    TagsBytesFrom(ts, 1);
    TagsBytesFrom(ts, 0);
    assert ts[0..] == ts;
  }

  const REQUEST_TAGS_2: seq<Tag> :=
    [Tag(TAG_EXTRATES, REQUEST_EXTRATES),
     Tag(TAG_EXTCAPS, REQUEST_EXTCAPS),
     Tag(TAG_VHTCAPS, REQUEST_VHTCAPS)]

  const REQUEST_ELEMENTS_2: seq<byte> :=
    [0x32, 0x04] + REQUEST_EXTRATES +
    [0x7f, 0x09] + REQUEST_EXTCAPS +
    [0xbf, 0x0c] + REQUEST_VHTCAPS

  /** The wire form of group 2 of the request elements is the captured bytes. */
  lemma RequestWire2()
    ensures TagsBytes(REQUEST_TAGS_2) == REQUEST_ELEMENTS_2
  {
    var ts := REQUEST_TAGS_2;
    assert TagBytes(ts[0]) == [0x32, 0x04] + REQUEST_EXTRATES;
    assert TagBytes(ts[1]) == [0x7f, 0x09] + REQUEST_EXTCAPS;
    assert TagBytes(ts[2]) == [0xbf, 0x0c] + REQUEST_VHTCAPS;
    assert ts[3..] == [];
    TagsBytesFrom(ts, 2);
    TagsBytesFrom(ts, 1);
    TagsBytesFrom(ts, 0);
    assert ts[0..] == ts;
  }

  const REQUEST_TAGS: seq<Tag> :=
    [Tag(TAG_SSID, EMPTY),
     Tag(TAG_RATES, REQUEST_RATES),
     Tag(TAG_HTCAPS, REQUEST_HTCAPS),
     Tag(TAG_EXTRATES, REQUEST_EXTRATES),
     Tag(TAG_EXTCAPS, REQUEST_EXTCAPS),
     Tag(TAG_VHTCAPS, REQUEST_VHTCAPS)]

  const REQUEST_ELEMENTS: seq<byte> := REQUEST_ELEMENTS_1 + REQUEST_ELEMENTS_2

  /** The element bytes are the wire form of the elements. */
  lemma RequestElementsWire()
    ensures TagsBytes(REQUEST_TAGS) == REQUEST_ELEMENTS
  {
    assert REQUEST_TAGS == REQUEST_TAGS_1 + REQUEST_TAGS_2;
    RequestWire1();
    RequestWire2();
    TagsBytesAppend(REQUEST_TAGS_1, REQUEST_TAGS_2);
  }

  const REQUEST_FCS: seq<byte> := [0xe4, 0x19, 0x58, 0x68]

  const REQUEST_FRAME: seq<byte> := REQUEST_HEADER + REQUEST_ELEMENTS + REQUEST_FCS

  /**
   * Disassembling the whole captured probe request, FCS included: the
   * header, the empty SSID (still an SSID element) and the rates are taken,
   * and everything before the FCS is consumed.
   */
  lemma CapturedRequest(st: RequestFields)
    ensures |REQUEST_FRAME| == 99
    ensures DisassembleRequest(st, REQUEST_FRAME, true) ==
            Decoded(RequestFields(REQUEST_HEADER_FIELDS, Some(EMPTY), Some(REQUEST_RATES)), 95)
  {
    var s := REQUEST_FRAME;
    assert s[..HEADER_LEN] == REQUEST_HEADER;
    assert s[HEADER_LEN..|s| - 4] == REQUEST_ELEMENTS;
    CapturedRequestHeader();
    RequestElementsWire();
    ParseTagsBytes(REQUEST_TAGS);
    FindAt(REQUEST_TAGS, 0, TAG_SSID);
    FindAt(REQUEST_TAGS, 1, TAG_RATES);
  }

  // ---------------------------------------------------------------------
  // The captured probe response (391 bytes after the radiotap header)
  // ---------------------------------------------------------------------

  const RESPONSE_HEADER: seq<byte> :=
    [0x50, 0x00, 0x3a, 0x01, 0x00, 0x11, 0x22, 0x33, 0x44, 0x55, 0x01, 0x12,
     0x23, 0x34, 0x45, 0x56, 0x00, 0x11, 0x22, 0x33, 0x44, 0x55, 0xa0, 0x3f]

  /** Frame control 0x50: a management frame of subtype probe response. */
  const RESPONSE_HEADER_FIELDS: Header :=
    Header(FrameControl(0, TYPE_MANAGEMENT, SUBTYPE_PROBERESP, 0), 0x013a,
           [0x00, 0x11, 0x22, 0x33, 0x44, 0x55], [0x01, 0x12, 0x23, 0x34, 0x45, 0x56],
           [0x00, 0x11, 0x22, 0x33, 0x44, 0x55], 0x3fa0)

  lemma CapturedResponseHeader()
    ensures ParseHeader(RESPONSE_HEADER) == RESPONSE_HEADER_FIELDS
  {
    var r := RESPONSE_HEADER;
    assert r[0..2] == [r[0], r[1]] == [0x50, 0x00];
    assert r[22..24] == [r[22], r[23]] == [0xa0, 0x3f];
    assert r[2..4] == [r[2], r[3]] == [0x3a, 0x01];
    assert r[4..10] == [0x00, 0x11, 0x22, 0x33, 0x44, 0x55];
    assert r[10..16] == [0x01, 0x12, 0x23, 0x34, 0x45, 0x56];
    assert r[16..22] == [0x00, 0x11, 0x22, 0x33, 0x44, 0x55];
  }

  /** Timestamp, beacon interval and capabilities. */
  const RESPONSE_FIXED: seq<byte> := [0x30, 0x98, 0x66, 0xc3, 0x88, 0x09, 0x00, 0x00, 0x64, 0x00, 0x11, 0x14]

  lemma CapturedResponseFixed(st: ResponseFields, rest: seq<byte>)
    ensures ReadFixed(st, RESPONSE_FIXED + rest) ==
            Decoded(st.(ts := 0x0988C3669830, interval := 100, capabilities := 0x1411), FIXED_LEN)
  {
    var s := RESPONSE_FIXED + rest;
    assert s[..8] == [0x30, 0x98, 0x66, 0xc3, 0x88, 0x09, 0x00, 0x00];
    assert s[8..10] == [s[8], s[9]] == [0x64, 0x00];
    assert s[10..12] == [s[10], s[11]] == [0x11, 0x14];
  }

  /**
   * The element payloads: SSID "LLWifi50", rates, DSSS, ERP information,
   * extended rates, RSN, BSS load, RM capabilities, HT capabilities, HT
   * operation, overlapping BSS scan parameters, extended capabilities and
   * five vendor-specific elements (the second is WPS, the fifth WMM).
   */
  const RESPONSE_SSID: Payload :=
    [0x4c, 0x4c, 0x57, 0x69, 0x66, 0x69, 0x35, 0x30]
  const RESPONSE_RATES: Payload :=
    [0x82, 0x84, 0x0b, 0x16, 0x24, 0x30, 0x48, 0x6c]
  const RESPONSE_DSSS: Payload :=
    [0x01]
  const RESPONSE_ERPINFO: Payload :=
    [0x00]
  const RESPONSE_EXTRATES: Payload :=
    [0x0c, 0x12, 0x18, 0x60]
  const RESPONSE_RSN: seq<byte> :=
    [0x01, 0x00, 0x00, 0x0f, 0xac, 0x04, 0x01, 0x00, 0x00, 0x0f, 0xac, 0x04] +
    [0x01, 0x00, 0x00, 0x0f, 0xac, 0x02, 0x0c, 0x00]
  const RESPONSE_BSSLOAD: seq<byte> :=
    [0x00, 0x00, 0x2c, 0x00, 0x00]
  const RESPONSE_RMCAPS: seq<byte> :=
    [0x32, 0x08, 0x01, 0x00, 0x00]
  const RESPONSE_HTCAPS: Payload :=
    [0xad, 0x09, 0x17, 0xff, 0xff, 0xff, 0x00, 0x00, 0x00, 0x00, 0x00, 0x00] +
    [0x00, 0x00, 0x00, 0x00, 0x00, 0x00, 0x00, 0x00, 0x00, 0x00, 0x00, 0x00] +
    [0x00, 0x00]
  const RESPONSE_HTINFO: Payload :=
    [0x01, 0x08, 0x11, 0x00, 0x00, 0x00, 0x00, 0x00, 0x00, 0x00, 0x00, 0x00] +
    [0x00, 0x00, 0x00, 0x00, 0x00, 0x00, 0x00, 0x00, 0x00, 0x00]
  const RESPONSE_OBSSSCAN: seq<byte> :=
    [0x14, 0x00, 0x0a, 0x00, 0x2c, 0x01, 0xc8, 0x00, 0x14, 0x00, 0x05, 0x00] +
    [0x19, 0x00]
  const RESPONSE_EXTCAPS: Payload :=
    [0x05, 0x00, 0x08, 0x00, 0x00, 0x00, 0x00, 0x40]
  const RESPONSE_VENDOR1: seq<byte> :=
    [0x00, 0x14, 0x6c, 0x00, 0x00, 0x00]
  const RESPONSE_VENDOR2: seq<byte> :=
    [0x00, 0x50, 0xf2, 0x04, 0x10, 0x4a, 0x00, 0x01, 0x10, 0x10, 0x44, 0x00] +
    [0x01, 0x02, 0x10, 0x3b, 0x00, 0x01, 0x03, 0x10, 0x47, 0x00, 0x10, 0xfc] +
    [0xff, 0x06, 0xf4, 0xd2, 0xe3, 0x1c, 0x6e, 0x73, 0x72, 0xd7, 0xb3, 0x00] +
    [0x6f, 0x08, 0xde, 0x10, 0x21, 0x00, 0x0d, 0x4e, 0x45, 0x54, 0x47, 0x45] +
    [0x41, 0x52, 0x2c, 0x20, 0x49, 0x6e, 0x63, 0x2e, 0x10, 0x23, 0x00, 0x05] +
    [0x52, 0x37, 0x30, 0x30, 0x30, 0x10, 0x24, 0x00, 0x05, 0x52, 0x37, 0x30] +
    [0x30, 0x30, 0x10, 0x42, 0x00, 0x02, 0x33, 0x32, 0x10, 0x54, 0x00, 0x08] +
    [0x00, 0x06, 0x00, 0x50, 0xf2, 0x04, 0x00, 0x01, 0x10, 0x11, 0x00, 0x09] +
    [0x6d, 0x69, 0x63, 0x72, 0x6f, 0x6e, 0x65, 0x74, 0x31, 0x10, 0x08, 0x00] +
    [0x02, 0x20, 0x08, 0x10, 0x3c, 0x00, 0x01, 0x03, 0x10, 0x49, 0x00, 0x06] +
    [0x00, 0x37, 0x2a, 0x00, 0x01, 0x20]
  const RESPONSE_VENDOR3: seq<byte> :=
    [0x00, 0x90, 0x4c, 0x04, 0x08, 0xbf, 0x0c, 0xb2, 0x59, 0x82, 0x0f, 0xea] +
    [0xff, 0x00, 0x00, 0xea, 0xff, 0x00, 0x00, 0xc0, 0x05, 0x00, 0x01, 0x00] +
    [0x00, 0x00, 0xc3, 0x02, 0x00, 0x02]
  const RESPONSE_VENDOR4: seq<byte> :=
    [0x00, 0x10, 0x18, 0x02, 0x00, 0x00, 0x1c, 0x00, 0x00]
  const RESPONSE_VENDOR5: seq<byte> :=
    [0x00, 0x50, 0xf2, 0x02, 0x01, 0x01, 0x88, 0x00, 0x03, 0xa4, 0x00, 0x00] +
    [0x27, 0xa4, 0x00, 0x00, 0x42, 0x43, 0xbc, 0x00, 0x62, 0x32, 0x66, 0x00]

  const RESPONSE_TAGS_1: seq<Tag> :=
    [Tag(TAG_SSID, RESPONSE_SSID),
     Tag(TAG_RATES, RESPONSE_RATES),
     Tag(TAG_DSSS, RESPONSE_DSSS)]

  const RESPONSE_ELEMENTS_1: seq<byte> :=
    [0x00, 0x08] + RESPONSE_SSID +
    [0x01, 0x08] + RESPONSE_RATES +
    [0x03, 0x01] + RESPONSE_DSSS

  /** The wire form of group 1 of the response elements is the captured bytes. */
  lemma ResponseWire1()
    ensures TagsBytes(RESPONSE_TAGS_1) == RESPONSE_ELEMENTS_1
  {
    var ts := RESPONSE_TAGS_1;
    assert TagBytes(ts[0]) == [0x00, 0x08] + RESPONSE_SSID;
    assert TagBytes(ts[1]) == [0x01, 0x08] + RESPONSE_RATES;
    assert TagBytes(ts[2]) == [0x03, 0x01] + RESPONSE_DSSS;
    assert ts[3..] == [];
    TagsBytesFrom(ts, 2);
    TagsBytesFrom(ts, 1);
    TagsBytesFrom(ts, 0);
    assert ts[0..] == ts;
  }

  const RESPONSE_TAGS_2: seq<Tag> :=
    [Tag(TAG_ERPINFO, RESPONSE_ERPINFO),
     Tag(TAG_EXTRATES, RESPONSE_EXTRATES),
     Tag(TAG_RSN, RESPONSE_RSN)]

  const RESPONSE_ELEMENTS_2: seq<byte> :=
    [0x2a, 0x01] + RESPONSE_ERPINFO +
    [0x32, 0x04] + RESPONSE_EXTRATES +
    [0x30, 0x14] + RESPONSE_RSN

  /** The wire form of group 2 of the response elements is the captured bytes. */
  lemma ResponseWire2()
    ensures TagsBytes(RESPONSE_TAGS_2) == RESPONSE_ELEMENTS_2
  {
    var ts := RESPONSE_TAGS_2;
    assert TagBytes(ts[0]) == [0x2a, 0x01] + RESPONSE_ERPINFO;
    assert TagBytes(ts[1]) == [0x32, 0x04] + RESPONSE_EXTRATES;
    assert TagBytes(ts[2]) == [0x30, 0x14] + RESPONSE_RSN;
    assert ts[3..] == [];
    TagsBytesFrom(ts, 2);
    TagsBytesFrom(ts, 1);
    TagsBytesFrom(ts, 0);
    assert ts[0..] == ts;
  }

  const RESPONSE_TAGS_3: seq<Tag> :=
    [Tag(TAG_BSSLOAD, RESPONSE_BSSLOAD),
     Tag(TAG_RMCAPS, RESPONSE_RMCAPS),
     Tag(TAG_HTCAPS, RESPONSE_HTCAPS)]

  const RESPONSE_ELEMENTS_3: seq<byte> :=
    [0x0b, 0x05] + RESPONSE_BSSLOAD +
    [0x46, 0x05] + RESPONSE_RMCAPS +
    [0x2d, 0x1a] + RESPONSE_HTCAPS

  /** The wire form of group 3 of the response elements is the captured bytes. */
  lemma ResponseWire3()
    ensures TagsBytes(RESPONSE_TAGS_3) == RESPONSE_ELEMENTS_3
  {
    var ts := RESPONSE_TAGS_3;
    assert TagBytes(ts[0]) == [0x0b, 0x05] + RESPONSE_BSSLOAD;
    assert TagBytes(ts[1]) == [0x46, 0x05] + RESPONSE_RMCAPS;
    assert TagBytes(ts[2]) == [0x2d, 0x1a] + RESPONSE_HTCAPS;
    assert ts[3..] == [];
    TagsBytesFrom(ts, 2);
    TagsBytesFrom(ts, 1);
    TagsBytesFrom(ts, 0);
    assert ts[0..] == ts;
  }

  const RESPONSE_TAGS_4: seq<Tag> :=
    [Tag(TAG_HTINFO, RESPONSE_HTINFO),
     Tag(TAG_OBSSSCAN, RESPONSE_OBSSSCAN),
     Tag(TAG_EXTCAPS, RESPONSE_EXTCAPS)]

  const RESPONSE_ELEMENTS_4: seq<byte> :=
    [0x3d, 0x16] + RESPONSE_HTINFO +
    [0x4a, 0x0e] + RESPONSE_OBSSSCAN +
    [0x7f, 0x08] + RESPONSE_EXTCAPS

  /** The wire form of group 4 of the response elements is the captured bytes. */
  lemma ResponseWire4()
    ensures TagsBytes(RESPONSE_TAGS_4) == RESPONSE_ELEMENTS_4
  {
    var ts := RESPONSE_TAGS_4;
    assert TagBytes(ts[0]) == [0x3d, 0x16] + RESPONSE_HTINFO;
    assert TagBytes(ts[1]) == [0x4a, 0x0e] + RESPONSE_OBSSSCAN;
    assert TagBytes(ts[2]) == [0x7f, 0x08] + RESPONSE_EXTCAPS;
    assert ts[3..] == [];
    TagsBytesFrom(ts, 2);
    TagsBytesFrom(ts, 1);
    TagsBytesFrom(ts, 0);
    assert ts[0..] == ts;
  }

  const RESPONSE_TAGS_5: seq<Tag> :=
    [Tag(TAG_VENDOR, RESPONSE_VENDOR1),
     Tag(TAG_VENDOR, RESPONSE_VENDOR2)]

  const RESPONSE_ELEMENTS_5: seq<byte> :=
    [0xdd, 0x06] + RESPONSE_VENDOR1 +
    [0xdd, 0x7e] + RESPONSE_VENDOR2

  /** The wire form of group 5 of the response elements is the captured bytes. */
  lemma ResponseWire5()
    ensures TagsBytes(RESPONSE_TAGS_5) == RESPONSE_ELEMENTS_5
  {
    var ts := RESPONSE_TAGS_5;
    assert TagBytes(ts[0]) == [0xdd, 0x06] + RESPONSE_VENDOR1;
    assert TagBytes(ts[1]) == [0xdd, 0x7e] + RESPONSE_VENDOR2;
    assert ts[2..] == [];
    TagsBytesFrom(ts, 1);
    TagsBytesFrom(ts, 0);
    assert ts[0..] == ts;
  }

  const RESPONSE_TAGS_6: seq<Tag> :=
    [Tag(TAG_VENDOR, RESPONSE_VENDOR3),
     Tag(TAG_VENDOR, RESPONSE_VENDOR4),
     Tag(TAG_VENDOR, RESPONSE_VENDOR5)]

  const RESPONSE_ELEMENTS_6: seq<byte> :=
    [0xdd, 0x1e] + RESPONSE_VENDOR3 +
    [0xdd, 0x09] + RESPONSE_VENDOR4 +
    [0xdd, 0x18] + RESPONSE_VENDOR5

  /** The wire form of group 6 of the response elements is the captured bytes. */
  lemma ResponseWire6()
    ensures TagsBytes(RESPONSE_TAGS_6) == RESPONSE_ELEMENTS_6
  {
    var ts := RESPONSE_TAGS_6;
    assert TagBytes(ts[0]) == [0xdd, 0x1e] + RESPONSE_VENDOR3;
    assert TagBytes(ts[1]) == [0xdd, 0x09] + RESPONSE_VENDOR4;
    assert TagBytes(ts[2]) == [0xdd, 0x18] + RESPONSE_VENDOR5;
    assert ts[3..] == [];
    TagsBytesFrom(ts, 2);
    TagsBytesFrom(ts, 1);
    TagsBytesFrom(ts, 0);
    assert ts[0..] == ts;
  }

  const RESPONSE_TAGS: seq<Tag> :=
    RESPONSE_TAGS_1 + RESPONSE_TAGS_2 + RESPONSE_TAGS_3 + RESPONSE_TAGS_4 + RESPONSE_TAGS_5 + RESPONSE_TAGS_6

  const RESPONSE_ELEMENTS: seq<byte> := RESPONSE_ELEMENTS_1 + RESPONSE_ELEMENTS_2 + RESPONSE_ELEMENTS_3 + RESPONSE_ELEMENTS_4 + RESPONSE_ELEMENTS_5 + RESPONSE_ELEMENTS_6

  /** The element bytes are the wire form of the elements. */
  lemma ResponseElementsWire()
    ensures TagsBytes(RESPONSE_TAGS) == RESPONSE_ELEMENTS
  {
    ResponseWire1();
    ResponseWire2();
    ResponseWire3();
    ResponseWire4();
    ResponseWire5();
    ResponseWire6();
    TagsBytesAppend(RESPONSE_TAGS_1, RESPONSE_TAGS_2);
    TagsBytesAppend(RESPONSE_TAGS_1 + RESPONSE_TAGS_2, RESPONSE_TAGS_3);
    TagsBytesAppend(RESPONSE_TAGS_1 + RESPONSE_TAGS_2 + RESPONSE_TAGS_3, RESPONSE_TAGS_4);
    TagsBytesAppend(RESPONSE_TAGS_1 + RESPONSE_TAGS_2 + RESPONSE_TAGS_3 + RESPONSE_TAGS_4, RESPONSE_TAGS_5);
    TagsBytesAppend(RESPONSE_TAGS_1 + RESPONSE_TAGS_2 + RESPONSE_TAGS_3 + RESPONSE_TAGS_4 + RESPONSE_TAGS_5, RESPONSE_TAGS_6);
  }

  const RESPONSE_FCS: seq<byte> := [0xb1, 0x37, 0xb0, 0xc2]

  const RESPONSE_FRAME: seq<byte> := RESPONSE_HEADER + RESPONSE_FIXED + RESPONSE_ELEMENTS + RESPONSE_FCS

  /** Where the header, the body and the FCS sit in the response frame. */
  lemma ResponseFrameSlices()
    ensures |RESPONSE_FRAME| == 391
    ensures RESPONSE_FRAME[..HEADER_LEN] == RESPONSE_HEADER
    ensures RESPONSE_FRAME[HEADER_LEN..387] == RESPONSE_FIXED + RESPONSE_ELEMENTS
  {
  }

  /** The response's elements parse back to the seventeen elements. */
  lemma ResponseElementsParse()
    ensures ParseTags(RESPONSE_ELEMENTS) == Some(RESPONSE_TAGS)
  {
    ResponseElementsWire();
    ParseTagsBytes(RESPONSE_TAGS);
  }

  /**
   * Each field the probe extracts is found among the response's elements,
   * except Country and Supported Operating Classes.
   */
  lemma ResponseTagsFound()
    ensures FindTag(RESPONSE_TAGS, TAG_SSID) == Some(RESPONSE_SSID)
    ensures FindTag(RESPONSE_TAGS, TAG_RATES) == Some(RESPONSE_RATES)
    ensures FindTag(RESPONSE_TAGS, TAG_DSSS) == Some(RESPONSE_DSSS)
    ensures FindTag(RESPONSE_TAGS, TAG_COUNTRY) == None
    ensures FindTag(RESPONSE_TAGS, TAG_ERPINFO) == Some(RESPONSE_ERPINFO)
    ensures FindTag(RESPONSE_TAGS, TAG_EXTRATES) == Some(RESPONSE_EXTRATES)
    ensures FindTag(RESPONSE_TAGS, TAG_SUPPOPCLASS) == None
    ensures FindTag(RESPONSE_TAGS, TAG_HTCAPS) == Some(RESPONSE_HTCAPS)
    ensures FindTag(RESPONSE_TAGS, TAG_HTINFO) == Some(RESPONSE_HTINFO)
    ensures FindTag(RESPONSE_TAGS, TAG_EXTCAPS) == Some(RESPONSE_EXTCAPS)
  {
    FindTagShort(RESPONSE_TAGS_1);
    FindTagShort(RESPONSE_TAGS_2);
    FindTagShort(RESPONSE_TAGS_3);
    FindTagShort(RESPONSE_TAGS_4);
    FindTagShort(RESPONSE_TAGS_5);
    FindTagShort(RESPONSE_TAGS_6);
    FindTagGroups(RESPONSE_TAGS_1, RESPONSE_TAGS_2, RESPONSE_TAGS_3, RESPONSE_TAGS_4, RESPONSE_TAGS_5, RESPONSE_TAGS_6);
  }

  /**
   * Disassembling the whole captured probe response, FCS included: the
   * header, the fixed fields, SSID and Rates and every optional element the
   * frame carries are taken; Country and Supported Operating Classes, which
   * it lacks, and WMM/WME, which is never extracted, keep their values.
   */
  lemma CapturedResponse(st: ResponseFields)
    ensures DisassembleResponse(st, RESPONSE_FRAME, true) ==
            Decoded(ResponseFields(RESPONSE_HEADER_FIELDS, 0x0988C3669830, 100, 0x1411,
                                   st.params.(ssid := Some(RESPONSE_SSID), rates := Some(RESPONSE_RATES),
                                              dsss := Some(RESPONSE_DSSS), erpInfo := Some(RESPONSE_ERPINFO),
                                              extRates := Some(RESPONSE_EXTRATES), htCaps := Some(RESPONSE_HTCAPS),
                                              htInfo := Some(RESPONSE_HTINFO), extCaps := Some(RESPONSE_EXTCAPS))),
                    387)
  {
    var s := RESPONSE_FRAME;
    ResponseFrameSlices();
    assert (RESPONSE_FIXED + RESPONSE_ELEMENTS)[FIXED_LEN..] == RESPONSE_ELEMENTS;
    CapturedResponseHeader();
    CapturedResponseFixed(st.(header := RESPONSE_HEADER_FIELDS), RESPONSE_ELEMENTS);
    ResponseElementsParse();
    ResponseTagsFound();
    var st4 := st.(header := RESPONSE_HEADER_FIELDS, ts := 0x0988C3669830, interval := 100, capabilities := 0x1411);
    DecodeResponseSteps(st, s, true, st4, RESPONSE_TAGS);
  }
}
