/**
 * Probe Request and Probe Response frames (IEEE Std 802.11-2016, sections
 * 9.3.3.10 and 9.3.3.11).
 *
 * Assemble writes a frame into a caller's buffer from pointer p with rem
 * bytes left; Disassemble reads one back. Both return the pointer past what
 * they handled, or None (NULL) on failure, and the count left in rem (which
 * is passed by reference in the original and so is updated even on failure).
 *
 * Each operation is specified by a function over the frame's fields and the
 * bytes (AssembleRequest, DisassembleRequest, AssembleResponse,
 * DisassembleResponse); the lemmas after them prove the round trip and the
 * mandatory/optional element rules about those functions.
 */
module Probe {
  import opened Bytes
  import opened Frame

  /** The result of reading: the new field values, and on success how many bytes were read. */
  datatype Decode<S> = Decoded(state: S, consumed: nat) | Rejected(state: S)

  // =====================================================================
  // Probe Request
  // =====================================================================

  datatype RequestFields = RequestFields(header: Header, ssid: Option<Payload>, rates: Option<Payload>)

  /** The order in which a probe request stages its elements. */
  const REQUEST_ORDER: seq<byte> := [TAG_SSID, TAG_RATES]

  function RequestStaged(f: RequestFields): seq<Tag>
  {
    StageAll(REQUEST_ORDER, [f.ssid, f.rates])
  }

  /**
   * ProbeRequest::Assemble: the base header, then SSID and Rates, both of
   * which must be present.
   */
  function AssembleRequest(f: RequestFields, rem: nat, fcs: bool): (e: Emit)
    ensures EmitHeader(f.header, rem, fcs).Refused? ==> e == EmitHeader(f.header, rem, fcs)
    ensures e.Emitted? ==> f.ssid.Some? && f.rates.Some?
    ensures e.Emitted? <==> f.ssid.Some? && f.rates.Some? &&
                            rem >= FcsLen(fcs) + HEADER_LEN + 4 + |f.ssid.value| + |f.rates.value|
    ensures e.Emitted? ==> e.out == HeaderBytes(f.header) + TagBytes(Tag(TAG_SSID, f.ssid.value)) +
                                    TagBytes(Tag(TAG_RATES, f.rates.value)) &&
                           e.rem == rem - FcsLen(fcs) - |e.out|
  {
    match EmitHeader(f.header, rem, fcs)
    case Refused(r) => Refused(r)
    case Emitted(hdr, r) =>
      if f.ssid.None? then Refused(r)
      else if f.rates.None? then Refused(r)
      else
        RequestStagedBytes(f);
        Then(hdr, EmitTags(RequestStaged(f), r))
  }

  lemma RequestStagedBytes(f: RequestFields)
    requires f.ssid.Some? && f.rates.Some?
    ensures TagsBytes(RequestStaged(f)) ==
            TagBytes(Tag(TAG_SSID, f.ssid.value)) + TagBytes(Tag(TAG_RATES, f.rates.value))
  {
    var t1, t2 := Tag(TAG_SSID, f.ssid.value), Tag(TAG_RATES, f.rates.value);
    assert REQUEST_ORDER[1..] == [TAG_RATES] && [f.ssid, f.rates][1..] == [f.rates];
    assert StageAll([TAG_RATES], [f.rates]) == [t2] + StageAll([], []);
    assert RequestStaged(f) == [t1] + [t2];
    assert [t1] + [t2] == [t1, t2] && [t1, t2][1..] == [t2];
    assert TagsBytes([t2]) == TagBytes(t2) + TagsBytes([]);
  }

  /**
   * ProbeRequest::Disassemble: the base header, then the elements; Rates is
   * mandatory, SSID is optional (a wildcard probe may omit it).
   */
  function DisassembleRequest(st: RequestFields, s: seq<byte>, fcs: bool): (d: Decode<RequestFields>)
    ensures |s| < FcsLen(fcs) + HEADER_LEN ==> d == Rejected(st)
    ensures d.Decoded? ==> d.state.rates.Some? && d.consumed == |s| - FcsLen(fcs)
    ensures d.Decoded? <==> |s| >= FcsLen(fcs) + HEADER_LEN &&
                            var ts := ParseTags(s[HEADER_LEN..|s| - FcsLen(fcs)]);
                            ts.Some? && FindTag(ts.value, TAG_RATES).Some?
  {
    if |s| < FcsLen(fcs) + HEADER_LEN then Rejected(st)
    else
      ReadRequestElements(st.(header := ParseHeader(s[..HEADER_LEN])), ParseTags(s[HEADER_LEN..|s| - FcsLen(fcs)]),
                          |s| - FcsLen(fcs))
  }

  /**
   * The element step of ProbeRequest::Disassemble, given what parsing the
   * elements gave: Rates must be there, SSID is taken when it is.
   */
  function ReadRequestElements(st: RequestFields, parsed: Option<seq<Tag>>, consumed: nat): (d: Decode<RequestFields>)
    ensures d.state.header == st.header
    ensures d.Decoded? <==> parsed.Some? && FindTag(parsed.value, TAG_RATES).Some?
    ensures d.Decoded? ==> d.consumed == consumed && d.state.rates.Some?
  {
    match parsed
    case None => Rejected(st)
    case Some(ts) =>
      if FindTag(ts, TAG_RATES).None? then Rejected(st)
      else Decoded(st.(rates := GetTag(st.rates, ts, TAG_RATES), ssid := GetTag(st.ssid, ts, TAG_SSID)), consumed)
  }

  /** Disassembling what Assemble wrote (plus any FCS trailer) gives back every field. */
  lemma RequestRoundTrip(f: RequestFields, g: RequestFields, rem: nat, fcs: bool, trailer: seq<byte>)
    requires AssembleRequest(f, rem, fcs).Emitted?
    requires |trailer| == FcsLen(fcs)
    ensures var out := AssembleRequest(f, rem, fcs).out;
            DisassembleRequest(g, out + trailer, fcs) == Decoded(f, |out|)
  {
    var out := AssembleRequest(f, rem, fcs).out;
    var s := out + trailer;
    var staged := RequestStaged(f);
    RequestStagedBytes(f);
    assert s[..HEADER_LEN] == HeaderBytes(f.header);
    assert s[HEADER_LEN..|s| - FcsLen(fcs)] == TagsBytes(staged);
    HeaderRoundTrip(f.header);
    ParseTagsBytes(staged);
    assert Distinct(REQUEST_ORDER);
    FindStaged(REQUEST_ORDER, [f.ssid, f.rates], 0);
    FindStaged(REQUEST_ORDER, [f.ssid, f.rates], 1);
  }

  /**
   * A probe request without an SSID element still disassembles: the SSID
   * field keeps the value it had.
   */
  lemma RequestSsidOptional(g: RequestFields, h: Header, rates: Payload, fcs: bool, trailer: seq<byte>)
    requires |trailer| == FcsLen(fcs)
    ensures var s := HeaderBytes(h) + TagBytes(Tag(TAG_RATES, rates)) + trailer;
            DisassembleRequest(g, s, fcs) ==
            Decoded(RequestFields(h, g.ssid, Some(rates)), HEADER_LEN + 2 + |rates|)
  {
    var t := Tag(TAG_RATES, rates);
    var s := HeaderBytes(h) + TagBytes(t) + trailer;
    assert TagsBytes([t]) == TagBytes(t) + TagsBytes([]);
    assert s[HEADER_LEN..|s| - FcsLen(fcs)] == TagsBytes([t]);
    assert s[..HEADER_LEN] == HeaderBytes(h);
    HeaderRoundTrip(h);
    ParseTagsBytes([t]);
    assert [t][1..] == [];
    assert FindTag([t], TAG_SSID) == None;
    assert FindTag([t], TAG_RATES) == Some(rates);
  }

  /** A probe request without a Rates element is rejected, whatever else it holds. */
  lemma RequestRatesMandatory(g: RequestFields, h: Header, ts: seq<Tag>, fcs: bool, trailer: seq<byte>)
    requires |trailer| == FcsLen(fcs)
    requires forall i :: 0 <= i < |ts| ==> ts[i].id != TAG_RATES
    ensures var s := HeaderBytes(h) + TagsBytes(ts) + trailer;
            DisassembleRequest(g, s, fcs).Rejected?
  {
    var s := HeaderBytes(h) + TagsBytes(ts) + trailer;
    assert s[HEADER_LEN..|s| - FcsLen(fcs)] == TagsBytes(ts);
    ParseTagsBytes(ts);
    FindTagFirst(ts, TAG_RATES);
  }

  class ProbeRequest {
    var header: Header
    var ssid: Option<Payload>
    var rates: Option<Payload>

    function Fields(): RequestFields
      reads this
    {
      RequestFields(header, ssid, rates)
    }

    /** A new probe request: subtype probe request, no elements. */
    constructor ()
      ensures Fields() == RequestFields(InitialHeader(SUBTYPE_PROBEREQ), None, None)
    {
      header := InitialHeader(SUBTYPE_PROBEREQ);
      ssid := None;
      rates := None;
    }

    method Assemble(buf: array<byte>, p: nat, rem: nat, fcs: bool) returns (q: Option<nat>, rem': nat)
      requires p + rem <= buf.Length
      modifies buf
      ensures var e := AssembleRequest(Fields(), rem, fcs);
              (q.Some? <==> e.Emitted?) && rem' == e.rem &&
              (e.Emitted? ==> q.value == p + |e.out| && buf[..] == Overwrite(old(buf[..]), p, e.out)) &&
              (e.Refused? ==> Confined(old(buf[..]), buf[..], p, p + rem))
    {
      ghost var before := buf[..];
      q, rem' := AssembleHeader(buf, p, rem, fcs, header);
      if q.None? {
        return;
      }
      var f := q.value;
      if ssid.None? {
        OverwriteConfined(before, p, HeaderBytes(header), p, p + rem);
        return None, rem';
      }
      if rates.None? {
        OverwriteConfined(before, p, HeaderBytes(header), p, p + rem);
        return None, rem';
      }
      ghost var mid := buf[..];
      ghost var r := rem';
      q, rem' := AssembleTags(buf, f, rem', RequestStaged(Fields()));
      ghost var e := EmitTags(RequestStaged(Fields()), r);
      if e.Emitted? {
        OverwriteTwice(before, p, HeaderBytes(header), e.out);
      } else {
        OverwriteConfined(before, p, HeaderBytes(header), p, p + rem);
        ConfinedTrans(before, mid, buf[..], p, p + rem);
      }
    }

    method Disassemble(buf: array<byte>, p: nat, rem: nat, fcs: bool) returns (q: Option<nat>, rem': nat)
      requires p + rem <= buf.Length
      modifies this
      ensures var d := DisassembleRequest(old(Fields()), old(buf[p..p + rem]), fcs);
              Fields() == d.state && (q.Some? <==> d.Decoded?) &&
              (q.Some? ==> q.value == p + d.consumed && rem' == 0)
    {
      ghost var s := buf[p..p + rem];
      var h;
      q, rem', h := DisassembleHeader(buf, p, rem, fcs);
      if q.None? {
        return;
      }
      HeaderSplit(buf[..], p, rem, fcs);
      header := h;
      q, rem' := DisassembleElements(buf, q.value, rem', s[HEADER_LEN..|s| - FcsLen(fcs)], |s| - FcsLen(fcs));
    }

    /** The elements that follow the base header, on the rem bytes from position p. */
    method DisassembleElements(buf: array<byte>, p: nat, rem: nat, ghost body: seq<byte>, ghost consumed: nat)
      returns (q: Option<nat>, rem': nat)
      requires p + rem <= buf.Length && body == buf[p..p + rem]
      modifies this
      ensures var d := ReadRequestElements(old(Fields()), ParseTags(body), consumed);
              Fields() == d.state && (q.Some? <==> d.Decoded?) && (q.Some? ==> q.value == p + rem && rem' == 0)
    {
      var tags;
      q, rem', tags := DisassembleTags(buf, p, rem);
      if q.None? {
        return;
      }
      if FindTag(tags, TAG_RATES).None? {
        return None, rem';
      }
      rates := GetTag(rates, tags, TAG_RATES);
      ssid := GetTag(ssid, tags, TAG_SSID);  // optional: a missing SSID is not an error
    }
  }

  // =====================================================================
  // Probe Response
  // =====================================================================

  /** The elements a probe response (and a beacon) can carry. */
  datatype BeaconParameters = BeaconParameters(
    ssid: Option<Payload>, rates: Option<Payload>, dsss: Option<Payload>, country: Option<Payload>,
    erpInfo: Option<Payload>, extRates: Option<Payload>, suppOpClass: Option<Payload>,
    htCaps: Option<Payload>, htInfo: Option<Payload>, extCaps: Option<Payload>, wmmWme: Option<Payload>)

  const NO_PARAMETERS: BeaconParameters :=
    BeaconParameters(None, None, None, None, None, None, None, None, None, None, None)

  datatype ResponseFields = ResponseFields(header: Header, ts: u64, interval: u16, capabilities: u16,
                                           params: BeaconParameters)

  /**
   * The order in which a probe response stages its elements: SSID and Rates
   * (mandatory), then the optional ones. WMM/WME is not staged.
   */
  const RESPONSE_ORDER: seq<byte> := [TAG_SSID, TAG_RATES, TAG_DSSS, TAG_COUNTRY, TAG_ERPINFO,
                                      TAG_EXTRATES, TAG_SUPPOPCLASS, TAG_HTCAPS, TAG_HTINFO, TAG_EXTCAPS]

  /** The fields in RESPONSE_ORDER. */
  function ResponseTagFields(b: BeaconParameters): (r: seq<Option<Payload>>)
    ensures |r| == |RESPONSE_ORDER|
  {
    [b.ssid, b.rates, b.dsss, b.country, b.erpInfo, b.extRates, b.suppOpClass, b.htCaps, b.htInfo, b.extCaps]
  }

  function ResponseStaged(b: BeaconParameters): seq<Tag>
  {
    StageAll(RESPONSE_ORDER, ResponseTagFields(b))
  }

  /** Timestamp (8 bytes), Beacon Interval (2) and Capability Information (2). */
  const FIXED_LEN: nat := 12

  /** The fixed fields on the wire, each little-endian (htole64, htole16, htole16). */
  function FixedBytes(f: ResponseFields): (r: seq<byte>)
    ensures |r| == FIXED_LEN
  {
    LE(f.ts, 8) + LE(f.interval, 2) + LE(f.capabilities, 2)
  }

  /**
   * The fixed fields on assembly: each goes through chklen on its own, so a
   * short buffer stops at the first field that does not fit, with rem_ at
   * what the earlier fields left.
   */
  function EmitFixed(f: ResponseFields, rem: nat): (e: Emit)
    ensures e.Emitted? <==> rem >= FIXED_LEN
    ensures e.Emitted? ==> e.out == FixedBytes(f) && e.rem == rem - FIXED_LEN
    ensures e.Refused? ==> e.rem <= rem
  {
    if rem < 8 then Refused(rem)
    else if rem - 8 < 2 then Refused(rem - 8)
    else if rem - 10 < 2 then Refused(rem - 10)
    else Emitted(FixedBytes(f), rem - 12)
  }

  /**
   * ProbeResponse::Assemble: the base header; the fixed fields; SSID and
   * Rates, which must be present; then the optional elements that are
   * present, in RESPONSE_ORDER.
   */
  function AssembleResponse(f: ResponseFields, rem: nat, fcs: bool): (e: Emit)
    ensures EmitHeader(f.header, rem, fcs).Refused? ==> e == EmitHeader(f.header, rem, fcs)
    ensures e.Emitted? ==> f.params.ssid.Some? && f.params.rates.Some?
    ensures e.Emitted? ==> e.out == HeaderBytes(f.header) + FixedBytes(f) + TagsBytes(ResponseStaged(f.params)) &&
                           e.rem == rem - FcsLen(fcs) - |e.out|
  {
    match EmitHeader(f.header, rem, fcs)
    case Refused(r) => Refused(r)
    case Emitted(hdr, r) => Then(hdr, EmitResponseBody(f, r))
  }

  /** What follows the base header: the fixed fields, the SSID and Rates check, then the elements. */
  function EmitResponseBody(f: ResponseFields, rem: nat): (e: Emit)
    ensures e.Emitted? ==> f.params.ssid.Some? && f.params.rates.Some?
    ensures e.Emitted? ==> e.out == FixedBytes(f) + TagsBytes(ResponseStaged(f.params)) && e.rem == rem - |e.out|
  {
    match EmitFixed(f, rem)
    case Refused(r) => Refused(r)
    case Emitted(fixed, r) =>
      if f.params.ssid.None? then Refused(r)
      else if f.params.rates.None? then Refused(r)
      else Then(fixed, EmitTags(ResponseStaged(f.params), r))
  }

  /**
   * A probe response is assembled exactly when SSID and Rates are present and
   * the header, the fixed fields and every staged element fit.
   */
  lemma AssembleResponseSucceeds(f: ResponseFields, rem: nat, fcs: bool)
    ensures AssembleResponse(f, rem, fcs).Emitted? <==>
            f.params.ssid.Some? && f.params.rates.Some? &&
            rem >= FcsLen(fcs) + HEADER_LEN + FIXED_LEN + |TagsBytes(ResponseStaged(f.params))|
  {
  }

  /**
   * With fewer than 8, 10 or 12 bytes left after the header, assembly stops
   * before Timestamp, Interval or Capabilities respectively, and rem_ keeps
   * what the fields before it left.
   */
  lemma ResponseFixedFieldsChecked(f: ResponseFields, rem: nat, fcs: bool)
    requires rem >= FcsLen(fcs) + HEADER_LEN
    ensures var r := rem - FcsLen(fcs) - HEADER_LEN;
            (r < 8 ==> AssembleResponse(f, rem, fcs) == Refused(r)) &&
            (8 <= r < 10 ==> AssembleResponse(f, rem, fcs) == Refused(r - 8)) &&
            (10 <= r < 12 ==> AssembleResponse(f, rem, fcs) == Refused(r - 10))
  {
  }

  /** The elements of a probe response go on the wire in RESPONSE_ORDER, and WMM/WME never does. */
  lemma ResponseTagOrder(b: BeaconParameters, i: nat, j: nat)
    requires i < j < |ResponseStaged(b)|
    ensures exists x, y :: 0 <= x < y < |RESPONSE_ORDER| &&
                           ResponseStaged(b)[i].id == RESPONSE_ORDER[x] && ResponseStaged(b)[j].id == RESPONSE_ORDER[y]
    ensures ResponseStaged(b)[i].id != TAG_VENDOR && ResponseStaged(b)[j].id != TAG_VENDOR
  {
    StagedInOrder(RESPONSE_ORDER, ResponseTagFields(b), i, j);
  }

  /**
   * The fixed fields on disassembly, from the bytes after the header: each
   * is read (le64toh, le16toh, le16toh) and stored once chklen lets it
   * through, so a short frame keeps the fields read before the failure.
   */
  function ReadFixed(st: ResponseFields, s: seq<byte>): (d: Decode<ResponseFields>)
    ensures d.Decoded? <==> |s| >= FIXED_LEN
    ensures d.Decoded? ==> d.consumed == FIXED_LEN
    ensures d.state.header == st.header && d.state.params == st.params
    ensures d.Decoded? ==> d.state.ts == U64Of(s[..8]) && d.state.interval == U16Of(s[8..10]) &&
                           d.state.capabilities == U16Of(s[10..12])
  {
    if |s| < 8 then Rejected(st)
    else
      var st2 := st.(ts := U64Of(s[..8]));
      if |s| - 8 < 2 then Rejected(st2)
      else
        var st3 := st2.(interval := U16Of(s[8..10]));
        if |s| - 10 < 2 then Rejected(st3)
        else Decoded(st3.(capabilities := U16Of(s[10..12])), FIXED_LEN)
  }

  /** Reading back the fixed fields gives the values written. */
  lemma FixedRoundTrip(f: ResponseFields, st: ResponseFields, rest: seq<byte>)
    ensures ReadFixed(st, FixedBytes(f) + rest) ==
            Decoded(st.(ts := f.ts, interval := f.interval, capabilities := f.capabilities), FIXED_LEN)
  {
    var s := FixedBytes(f) + rest;
    assert s[..8] == LE(f.ts, 8);
    assert s[8..10] == LE(f.interval, 2);
    assert s[10..12] == LE(f.capabilities, 2);
    LE64RoundTrip(f.ts);
    LE16RoundTrip(f.interval);
    LE16RoundTrip(f.capabilities);
  }

  /** GetTag for each optional element, in RESPONSE_ORDER. */
  function ExtractOptional(b: BeaconParameters, ts: seq<Tag>): BeaconParameters
  {
    b.(dsss := GetTag(b.dsss, ts, TAG_DSSS),
       country := GetTag(b.country, ts, TAG_COUNTRY),
       erpInfo := GetTag(b.erpInfo, ts, TAG_ERPINFO),
       extRates := GetTag(b.extRates, ts, TAG_EXTRATES),
       suppOpClass := GetTag(b.suppOpClass, ts, TAG_SUPPOPCLASS),
       htCaps := GetTag(b.htCaps, ts, TAG_HTCAPS),
       htInfo := GetTag(b.htInfo, ts, TAG_HTINFO),
       extCaps := GetTag(b.extCaps, ts, TAG_EXTCAPS))
  }

  /**
   * ProbeResponse::Disassemble: the base header; the fixed fields; the
   * elements; SSID and Rates are mandatory (SSID is checked first), the rest
   * optional, and WMM/WME is not extracted.
   */
  function DisassembleResponse(st: ResponseFields, s: seq<byte>, fcs: bool): (d: Decode<ResponseFields>)
    ensures |s| < FcsLen(fcs) + HEADER_LEN ==> d == Rejected(st)
    ensures d.state.params.wmmWme == st.params.wmmWme
    ensures d.Decoded? ==> d.state.params.ssid.Some? && d.state.params.rates.Some? && d.consumed == |s| - FcsLen(fcs)
  {
    if |s| < FcsLen(fcs) + HEADER_LEN then Rejected(st)
    else ReadBody(st.(header := ParseHeader(s[..HEADER_LEN])), s[HEADER_LEN..|s| - FcsLen(fcs)], |s| - FcsLen(fcs))
  }

  /** What follows the base header: the fixed fields, then the elements. */
  function ReadBody(st: ResponseFields, body: seq<byte>, consumed: nat): (d: Decode<ResponseFields>)
    ensures d.state.header == st.header && d.state.params.wmmWme == st.params.wmmWme
    ensures d.Decoded? ==> d.consumed == consumed && d.state.params.ssid.Some? && d.state.params.rates.Some?
  {
    match ReadFixed(st, body)
    case Rejected(st4) => Rejected(st4)
    case Decoded(st4, _) => ReadElements(st4, ParseTags(body[FIXED_LEN..]), consumed)
  }

  /**
   * The element step of ProbeResponse::Disassemble, given what parsing the
   * elements gave: SSID is fetched first, then Rates, then the optional ones.
   */
  function ReadElements(st: ResponseFields, parsed: Option<seq<Tag>>, consumed: nat): (d: Decode<ResponseFields>)
    ensures d.state.header == st.header && d.state.ts == st.ts && d.state.params.wmmWme == st.params.wmmWme
    ensures d.Decoded? <==> parsed.Some? && FindTag(parsed.value, TAG_SSID).Some? &&
                            FindTag(parsed.value, TAG_RATES).Some?
    ensures d.Decoded? ==> d.consumed == consumed && d.state.params.ssid.Some? && d.state.params.rates.Some?
  {
    match parsed
    case None => Rejected(st)
    case Some(ts) =>
      if FindTag(ts, TAG_SSID).None? then Rejected(st)
      else
        var b := st.params.(ssid := GetTag(st.params.ssid, ts, TAG_SSID));
        if FindTag(ts, TAG_RATES).None? then Rejected(st.(params := b))
        else Decoded(st.(params := ExtractOptional(b.(rates := GetTag(b.rates, ts, TAG_RATES)), ts)), consumed)
  }

  /**
   * A probe response is accepted exactly when it holds the header and the
   * fixed fields, its elements parse to the end, and SSID and Rates are
   * among them.
   */
  lemma DisassembleResponseAccepts(st: ResponseFields, s: seq<byte>, fcs: bool)
    ensures DisassembleResponse(st, s, fcs).Decoded? <==>
            |s| >= FcsLen(fcs) + HEADER_LEN + FIXED_LEN &&
            var ts := ParseTags(s[HEADER_LEN + FIXED_LEN..|s| - FcsLen(fcs)]);
            ts.Some? && FindTag(ts.value, TAG_SSID).Some? && FindTag(ts.value, TAG_RATES).Some?
  {
    if |s| >= FcsLen(fcs) + HEADER_LEN + FIXED_LEN {
      SliceOfSlice(s, HEADER_LEN, |s| - FcsLen(fcs), FIXED_LEN, |s| - FcsLen(fcs) - HEADER_LEN);
    }
  }

  /**
   * What a frame object holds after disassembling f's bytes: every element
   * f has, and for the ones it lacks (and WMM/WME) what the object held before.
   */
  function Overlay(f: BeaconParameters, g: BeaconParameters): BeaconParameters
  {
    BeaconParameters(
      if f.ssid.Some? then f.ssid else g.ssid,
      if f.rates.Some? then f.rates else g.rates,
      if f.dsss.Some? then f.dsss else g.dsss,
      if f.country.Some? then f.country else g.country,
      if f.erpInfo.Some? then f.erpInfo else g.erpInfo,
      if f.extRates.Some? then f.extRates else g.extRates,
      if f.suppOpClass.Some? then f.suppOpClass else g.suppOpClass,
      if f.htCaps.Some? then f.htCaps else g.htCaps,
      if f.htInfo.Some? then f.htInfo else g.htInfo,
      if f.extCaps.Some? then f.extCaps else g.extCaps,
      g.wmmWme)
  }

  /** Disassembling a well-formed probe response: header, fixed fields and the elements found. */
  lemma DisassembleResponseOf(g: ResponseFields, f: ResponseFields, ts: seq<Tag>, fcs: bool, s: seq<byte>)
    requires |s| == HEADER_LEN + FIXED_LEN + |TagsBytes(ts)| + FcsLen(fcs)
    requires s[..HEADER_LEN] == HeaderBytes(f.header)
    requires s[HEADER_LEN..|s| - FcsLen(fcs)] == FixedBytes(f) + TagsBytes(ts)
    requires FindTag(ts, TAG_SSID).Some? && FindTag(ts, TAG_RATES).Some?
    ensures DisassembleResponse(g, s, fcs) ==
            Decoded(ResponseFields(f.header, f.ts, f.interval, f.capabilities,
                                   ExtractOptional(g.params.(ssid := FindTag(ts, TAG_SSID),
                                                             rates := FindTag(ts, TAG_RATES)), ts)),
                    HEADER_LEN + FIXED_LEN + |TagsBytes(ts)|)
  {
    HeaderRoundTrip(f.header);
    var st1 := g.(header := f.header);
    var st4 := st1.(ts := f.ts, interval := f.interval, capabilities := f.capabilities);
    FixedRoundTrip(f, st1, TagsBytes(ts));
    assert ParseTags(s[HEADER_LEN..|s| - FcsLen(fcs)][FIXED_LEN..]) == Some(ts) by {
      assert (FixedBytes(f) + TagsBytes(ts))[FIXED_LEN..] == TagsBytes(ts);
      ParseTagsBytes(ts);
    }
    DecodeResponseSteps(g, s, fcs, st4, ts);
  }

  /** DisassembleResponse once each of its steps has succeeded. */
  lemma DecodeResponseSteps(g: ResponseFields, s: seq<byte>, fcs: bool, st4: ResponseFields, ts: seq<Tag>)
    requires |s| >= FcsLen(fcs) + HEADER_LEN + FIXED_LEN
    requires ReadFixed(g.(header := ParseHeader(s[..HEADER_LEN])), s[HEADER_LEN..|s| - FcsLen(fcs)]) == Decoded(st4, FIXED_LEN)
    requires ParseTags(s[HEADER_LEN..|s| - FcsLen(fcs)][FIXED_LEN..]) == Some(ts)
    requires FindTag(ts, TAG_SSID).Some? && FindTag(ts, TAG_RATES).Some?
    ensures DisassembleResponse(g, s, fcs) ==
            Decoded(st4.(params := ExtractOptional(st4.params.(ssid := FindTag(ts, TAG_SSID),
                                                               rates := FindTag(ts, TAG_RATES)), ts)),
                    |s| - FcsLen(fcs))
  {
  }

  /** Each element of f can be found among f's staged elements, with f's value. */
  lemma FindResponseStaged(f: BeaconParameters)
    ensures var staged := ResponseStaged(f);
            FindTag(staged, TAG_SSID) == f.ssid && FindTag(staged, TAG_RATES) == f.rates &&
            FindTag(staged, TAG_DSSS) == f.dsss && FindTag(staged, TAG_COUNTRY) == f.country &&
            FindTag(staged, TAG_ERPINFO) == f.erpInfo && FindTag(staged, TAG_EXTRATES) == f.extRates &&
            FindTag(staged, TAG_SUPPOPCLASS) == f.suppOpClass && FindTag(staged, TAG_HTCAPS) == f.htCaps &&
            FindTag(staged, TAG_HTINFO) == f.htInfo && FindTag(staged, TAG_EXTCAPS) == f.extCaps
  {
    var fields := ResponseTagFields(f);
    assert Distinct(RESPONSE_ORDER);
    FindStaged(RESPONSE_ORDER, fields, 0);
    FindStaged(RESPONSE_ORDER, fields, 1);
    FindStaged(RESPONSE_ORDER, fields, 2);
    FindStaged(RESPONSE_ORDER, fields, 3);
    FindStaged(RESPONSE_ORDER, fields, 4);
    FindStaged(RESPONSE_ORDER, fields, 5);
    FindStaged(RESPONSE_ORDER, fields, 6);
    FindStaged(RESPONSE_ORDER, fields, 7);
    FindStaged(RESPONSE_ORDER, fields, 8);
    FindStaged(RESPONSE_ORDER, fields, 9);
  }

  /** Extracting from elements where every one of f's is found gives f's values wherever f has them. */
  lemma ExtractFound(f: BeaconParameters, g: BeaconParameters, ts: seq<Tag>)
    requires FindTag(ts, TAG_DSSS) == f.dsss && FindTag(ts, TAG_COUNTRY) == f.country &&
             FindTag(ts, TAG_ERPINFO) == f.erpInfo && FindTag(ts, TAG_EXTRATES) == f.extRates &&
             FindTag(ts, TAG_SUPPOPCLASS) == f.suppOpClass && FindTag(ts, TAG_HTCAPS) == f.htCaps &&
             FindTag(ts, TAG_HTINFO) == f.htInfo && FindTag(ts, TAG_EXTCAPS) == f.extCaps
    requires f.ssid.Some? && f.rates.Some?
    ensures ExtractOptional(g.(ssid := f.ssid, rates := f.rates), ts) == Overlay(f, g)
  {
  }

  /**
   * Disassembling what Assemble wrote (plus any FCS trailer) restores the
   * header, Timestamp, Interval, Capabilities and every element that was
   * staged; elements f lacks keep the value the frame held.
   */
  lemma ResponseRoundTrip(f: ResponseFields, g: ResponseFields, rem: nat, fcs: bool, trailer: seq<byte>)
    requires AssembleResponse(f, rem, fcs).Emitted?
    requires |trailer| == FcsLen(fcs)
    ensures var out := AssembleResponse(f, rem, fcs).out;
            DisassembleResponse(g, out + trailer, fcs) ==
            Decoded(f.(params := Overlay(f.params, g.params)), |out|)
  {
    var staged := ResponseStaged(f.params);
    var s := AssembleResponse(f, rem, fcs).out + trailer;
    assert s[..HEADER_LEN] == HeaderBytes(f.header);
    assert s[HEADER_LEN..|s| - FcsLen(fcs)] == FixedBytes(f) + TagsBytes(staged);
    FindResponseStaged(f.params);
    DisassembleResponseOf(g, f, staged, fcs, s);
    ExtractFound(f.params, g.params, staged);
  }

  /** Into a newly constructed frame, the round trip gives back f with WMM/WME left empty. */
  lemma ResponseRoundTripFresh(f: ResponseFields, rem: nat, fcs: bool, trailer: seq<byte>)
    requires AssembleResponse(f, rem, fcs).Emitted?
    requires |trailer| == FcsLen(fcs)
    ensures var out := AssembleResponse(f, rem, fcs).out;
            var initial := ResponseFields(InitialHeader(SUBTYPE_PROBERESP), 0, 0, 0, NO_PARAMETERS);
            DisassembleResponse(initial, out + trailer, fcs) ==
            Decoded(f.(params := f.params.(wmmWme := None)), |out|)
  {
    var initial := ResponseFields(InitialHeader(SUBTYPE_PROBERESP), 0, 0, 0, NO_PARAMETERS);
    ResponseRoundTrip(f, initial, rem, fcs, trailer);
  }

  /** A probe response lacking SSID or Rates is refused both ways. */
  lemma ResponseMandatoryTags(f: ResponseFields, g: ResponseFields, h: Header, fixed: seq<byte>,
                              ts: seq<Tag>, rem: nat, fcs: bool, trailer: seq<byte>)
    requires |fixed| == FIXED_LEN && |trailer| == FcsLen(fcs)
    requires FindTag(ts, TAG_SSID).None? || FindTag(ts, TAG_RATES).None?
    ensures f.params.ssid.None? || f.params.rates.None? ==> AssembleResponse(f, rem, fcs).Refused?
    ensures DisassembleResponse(g, HeaderBytes(h) + fixed + TagsBytes(ts) + trailer, fcs).Rejected?
  {
    var s := HeaderBytes(h) + fixed + TagsBytes(ts) + trailer;
    assert s[HEADER_LEN + FIXED_LEN..|s| - FcsLen(fcs)] == TagsBytes(ts);
    ParseTagsBytes(ts);
  }

  class ProbeResponse {
    var header: Header
    var ts: u64
    var interval: u16
    var capabilities: u16
    var params: BeaconParameters

    function Fields(): ResponseFields
      reads this
    {
      ResponseFields(header, ts, interval, capabilities, params)
    }

    /** A new probe response: subtype probe response, zero fixed fields, no elements. */
    constructor ()
      ensures Fields() == ResponseFields(InitialHeader(SUBTYPE_PROBERESP), 0, 0, 0, NO_PARAMETERS)
    {
      header := InitialHeader(SUBTYPE_PROBERESP);
      ts, interval, capabilities := 0, 0, 0;
      params := NO_PARAMETERS;
    }

    /** The timestamp: what the first eight bytes of the fixed fields carry, little-endian. */
    function Timestamp(): (t: u64)
      reads this
      ensures t == Fields().ts && U64Of(FixedBytes(Fields())[..8]) == t
    {
      assert FixedBytes(Fields())[..8] == LE(ts, 8);
      LE64RoundTrip(ts);
      ts
    }

    /** The beacon interval: what bytes 8-9 of the fixed fields carry, little-endian. */
    function Interval(): (i: u16)
      reads this
      ensures i == Fields().interval && U16Of(FixedBytes(Fields())[8..10]) == i
    {
      assert FixedBytes(Fields())[8..10] == LE(interval, 2);
      LE16RoundTrip(interval);
      interval
    }

    /** The capabilities: what bytes 10-11 of the fixed fields carry, little-endian. */
    function Capabilities(): (c: u16)
      reads this
      ensures c == Fields().capabilities && U16Of(FixedBytes(Fields())[10..12]) == c
    {
      assert FixedBytes(Fields())[10..12] == LE(capabilities, 2);
      LE16RoundTrip(capabilities);
      capabilities
    }

    method SetTimestamp(ts_: u64) returns (ok: bool)
      modifies this
      ensures ok && Timestamp() == ts_ && Fields() == old(Fields()).(ts := ts_)
    {
      ts := ts_;
      ok := true;
    }

    method SetInterval(interval_: u16) returns (ok: bool)
      modifies this
      ensures ok && Interval() == interval_ && Fields() == old(Fields()).(interval := interval_)
    {
      interval := interval_;
      ok := true;
    }

    method SetCapabilities(capabilities_: u16) returns (ok: bool)
      modifies this
      ensures ok && Capabilities() == capabilities_ && Fields() == old(Fields()).(capabilities := capabilities_)
    {
      capabilities := capabilities_;
      ok := true;
    }

    /** The fixed fields on assembly, from position p with rem bytes left. */
    method AssembleFixed(buf: array<byte>, p: nat, rem: nat) returns (q: Option<nat>, rem': nat)
      requires p + rem <= buf.Length
      modifies buf
      ensures var e := EmitFixed(Fields(), rem);
              (q.Some? <==> e.Emitted?) && rem' == e.rem &&
              (e.Emitted? ==> q.value == p + |e.out| && buf[..] == Overwrite(old(buf[..]), p, e.out)) &&
              (e.Refused? ==> Confined(old(buf[..]), buf[..], p, p + rem))
    {
      ghost var before := buf[..];
      var next;
      next, rem' := ChkLen(p, 8, rem);
      if next.None? {
        return None, rem';
      }
      WriteBytes(buf, p, LE(ts, 8));
      OverwriteConfined(before, p, LE(ts, 8), p, p + rem);
      next, rem' := ChkLen(next.value, 2, rem');
      if next.None? {
        return None, rem';
      }
      WriteBytes(buf, p + 8, LE(interval, 2));
      OverwriteTwice(before, p, LE(ts, 8), LE(interval, 2));
      OverwriteConfined(before, p, LE(ts, 8) + LE(interval, 2), p, p + rem);
      next, rem' := ChkLen(next.value, 2, rem');
      if next.None? {
        return None, rem';
      }
      WriteBytes(buf, p + 10, LE(capabilities, 2));
      OverwriteTwice(before, p, LE(ts, 8) + LE(interval, 2), LE(capabilities, 2));
      q := next;
    }

    method Assemble(buf: array<byte>, p: nat, rem: nat, fcs: bool) returns (q: Option<nat>, rem': nat)
      requires p + rem <= buf.Length
      modifies buf
      ensures var e := AssembleResponse(Fields(), rem, fcs);
              (q.Some? <==> e.Emitted?) && rem' == e.rem &&
              (e.Emitted? ==> q.value == p + |e.out| && buf[..] == Overwrite(old(buf[..]), p, e.out)) &&
              (e.Refused? ==> Confined(old(buf[..]), buf[..], p, p + rem))
    {
      ghost var before := buf[..];
      q, rem' := AssembleHeader(buf, p, rem, fcs, header);
      if q.None? {
        return;
      }
      ghost var hdr := HeaderBytes(header);
      ghost var mid := buf[..];
      ghost var r := rem';
      q, rem' := AssembleBody(buf, q.value, rem');
      ghost var e := EmitResponseBody(Fields(), r);
      if e.Emitted? {
        OverwriteTwice(before, p, hdr, e.out);
      } else {
        OverwriteConfined(before, p, hdr, p, p + rem);
        ConfinedWiden(mid, buf[..], p + HEADER_LEN, p + HEADER_LEN + r, p, p + rem);
        ConfinedTrans(before, mid, buf[..], p, p + rem);
      }
    }

    /** What follows the base header, from position p with rem bytes left. */
    method AssembleBody(buf: array<byte>, p: nat, rem: nat) returns (q: Option<nat>, rem': nat)
      requires p + rem <= buf.Length
      modifies buf
      ensures var e := EmitResponseBody(Fields(), rem);
              (q.Some? <==> e.Emitted?) && rem' == e.rem &&
              (e.Emitted? ==> q.value == p + |e.out| && buf[..] == Overwrite(old(buf[..]), p, e.out)) &&
              (e.Refused? ==> Confined(old(buf[..]), buf[..], p, p + rem))
    {
      ghost var before := buf[..];
      var next;
      next, rem' := AssembleFixed(buf, p, rem);
      if next.None? {
        return None, rem';
      }
      ghost var fixed := FixedBytes(Fields());
      if params.ssid.None? || params.rates.None? {
        OverwriteConfined(before, p, fixed, p, p + rem);
        return None, rem';
      }
      ghost var mid := buf[..];
      ghost var r := rem';
      q, rem' := AssembleTags(buf, next.value, rem', ResponseStaged(params));
      ghost var e := EmitTags(ResponseStaged(params), r);
      if e.Emitted? {
        OverwriteTwice(before, p, fixed, e.out);
      } else {
        OverwriteConfined(before, p, fixed, p, p + rem);
        ConfinedWiden(mid, buf[..], next.value, next.value + r, p, p + rem);
        ConfinedTrans(before, mid, buf[..], p, p + rem);
      }
    }

    /** The fixed fields on disassembly, from position p with rem bytes left. */
    method DisassembleFixed(buf: array<byte>, p: nat, rem: nat, ghost s: seq<byte>) returns (q: Option<nat>, rem': nat)
      requires p + rem <= buf.Length && s == buf[p..p + rem]
      modifies this
      ensures var d := ReadFixed(old(Fields()), s);
              Fields() == d.state && (q.Some? <==> d.Decoded?) &&
              (q.Some? ==> q.value == p + FIXED_LEN && rem' == rem - FIXED_LEN)
    {
      var next, ok;
      next, rem' := ChkLen(p, 8, rem);
      if next.None? {
        return None, rem';
      }
      var ts_ := U64Of(buf[p..p + 8]);
      assert ts_ == U64Of(s[..8]) by {
        SliceOfSlice(buf[..], p, p + rem, 0, 8);
      }
      ok := SetTimestamp(ts_);
      next, rem' := ChkLen(next.value, 2, rem');
      if next.None? {
        return None, rem';
      }
      var interval_ := U16Of(buf[p + 8..p + 10]);
      assert interval_ == U16Of(s[8..10]) by {
        SliceOfSlice(buf[..], p, p + rem, 8, 10);
      }
      ok := SetInterval(interval_);
      next, rem' := ChkLen(next.value, 2, rem');
      if next.None? {
        return None, rem';
      }
      var capabilities_ := U16Of(buf[p + 10..p + 12]);
      assert capabilities_ == U16Of(s[10..12]) by {
        SliceOfSlice(buf[..], p, p + rem, 10, 12);
      }
      ok := SetCapabilities(capabilities_);
      q := next;
    }

    method Disassemble(buf: array<byte>, p: nat, rem: nat, fcs: bool) returns (q: Option<nat>, rem': nat)
      requires p + rem <= buf.Length
      modifies this
      ensures var d := DisassembleResponse(old(Fields()), old(buf[p..p + rem]), fcs);
              Fields() == d.state && (q.Some? <==> d.Decoded?) &&
              (q.Some? ==> q.value == p + d.consumed && rem' == 0)
    {
      ghost var s := buf[p..p + rem];
      var h;
      q, rem', h := DisassembleHeader(buf, p, rem, fcs);
      if q.None? {
        return;
      }
      HeaderSplit(buf[..], p, rem, fcs);
      header := h;
      q, rem' := DisassembleBody(buf, q.value, rem', s[HEADER_LEN..|s| - FcsLen(fcs)], |s| - FcsLen(fcs));
    }

    /** What follows the base header, on the rem bytes from position p. */
    method DisassembleBody(buf: array<byte>, p: nat, rem: nat, ghost body: seq<byte>, ghost consumed: nat)
      returns (q: Option<nat>, rem': nat)
      requires p + rem <= buf.Length && body == buf[p..p + rem]
      modifies this
      ensures var d := ReadBody(old(Fields()), body, consumed);
              Fields() == d.state && (q.Some? <==> d.Decoded?) && (q.Some? ==> q.value == p + rem && rem' == 0)
    {
      var next;
      next, rem' := DisassembleFixed(buf, p, rem, body);
      if next.None? {
        return None, rem';
      }
      assert body[FIXED_LEN..] == buf[next.value..next.value + rem'] by {
        SliceOfSlice(buf[..], p, p + rem, FIXED_LEN, rem);
      }
      var tags;
      q, rem', tags := DisassembleTags(buf, next.value, rem');
      if q.None? {
        return;
      }
      if FindTag(tags, TAG_SSID).None? {
        return None, rem';
      }
      params := params.(ssid := GetTag(params.ssid, tags, TAG_SSID));
      if FindTag(tags, TAG_RATES).None? {
        return None, rem';
      }
      params := params.(rates := GetTag(params.rates, tags, TAG_RATES));
      // the optional elements, in RESPONSE_ORDER; a missing one is not an error
      params := ExtractOptional(params, tags);
    }
  }
}
