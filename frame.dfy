/**
 * The management-frame machinery that the probe frames are built on: the
 * 24-byte MAC header, the optional frame check sequence, tagged elements
 * (IEEE Std 802.11-2016, section 9.4.2.1: id(1) | len(1) | payload(len)) and
 * the bounds-checked cursor that every field goes through.
 *
 * The base class ManagementFrame, its chklen, PutTag, AssembleTags,
 * DisassembleTags and GetTag are not part of this model's sources; what is
 * below is the behaviour the probe frames rely on: a cursor that fails when
 * n > rem and otherwise advances by n and decrements rem, and a list of tags.
 */
module Frame {
  import opened Bytes

  datatype Option<T> = None | Some(value: T)

  // ---------------------------------------------------------------------
  // Element ids (IEEE Std 802.11-2016, Table 9-77)
  // ---------------------------------------------------------------------

  const TAG_SSID: byte := 0
  const TAG_RATES: byte := 1
  const TAG_DSSS: byte := 3
  const TAG_COUNTRY: byte := 7
  const TAG_ERPINFO: byte := 42
  const TAG_HTCAPS: byte := 45
  const TAG_EXTRATES: byte := 50
  const TAG_SUPPOPCLASS: byte := 59
  const TAG_HTINFO: byte := 61
  const TAG_EXTCAPS: byte := 127
  const TAG_VENDOR: byte := 221   // vendor specific; carries WMM/WME

  /** An element payload: its length must fit the one-byte length field. */
  type Payload = s: seq<byte> | |s| <= 255

  datatype Tag = Tag(id: byte, payload: Payload)

  /** The wire form of one element. */
  function TagBytes(t: Tag): seq<byte>
  {
    [t.id, |t.payload|] + t.payload
  }

  /** The wire form of a list of elements, one after the other. */
  function TagsBytes(ts: seq<Tag>): seq<byte>
  {
    if ts == [] then [] else TagBytes(ts[0]) + TagsBytes(ts[1..])
  }

  /**
   * Reads elements until the bytes are exhausted. One byte left over (an id
   * without a length) or a length larger than what remains is a failure.
   */
  function ParseTags(s: seq<byte>): Option<seq<Tag>>
    decreases |s|
  {
    if |s| == 0 then Some([])
    else if |s| < 2 || |s| - 2 < s[1] then None
    else
      match ParseTags(s[2 + s[1]..])
      case None => None
      case Some(rest) => Some([Tag(s[0], s[2..2 + s[1]])] + rest)
  }

  /** One step of the parse: the first element, then whatever the rest parses to. */
  lemma ParseTagsStep(s: seq<byte>)
    requires |s| >= 2 && s[1] as int <= |s| - 2
    ensures ParseTags(s) == Prepend([Tag(s[0], s[2..2 + s[1]])], ParseTags(s[2 + s[1]..]))
  {
  }

  /** Every list of elements reads back from its own wire form. */
  lemma {:induction false} ParseTagsBytes(ts: seq<Tag>)
    ensures ParseTags(TagsBytes(ts)) == Some(ts)
  {
    if ts != [] {
      var t := ts[0];
      var s := TagsBytes(ts);
      ParseTagsBytes(ts[1..]);
      assert s[1] == |t.payload|;
      assert s[2..2 + s[1]] == t.payload;
      assert s[2 + s[1]..] == TagsBytes(ts[1..]);
      assert [Tag(s[0], s[2..2 + s[1]])] + ts[1..] == ts;
    }
  }

  lemma {:induction false} TagsBytesAppend(a: seq<Tag>, b: seq<Tag>)
    ensures TagsBytes(a + b) == TagsBytes(a) + TagsBytes(b)
  {
    if a != [] {
      TagsBytesAppend(a[1..], b);
      assert (a + b)[1..] == a[1..] + b;
    } else {
      assert a + b == b;
    }
  }

  /** The payload of the first element with the given id, if there is one. */
  function FindTag(ts: seq<Tag>, id: byte): Option<Payload>
  {
    if ts == [] then None
    else if ts[0].id == id then Some(ts[0].payload)
    else FindTag(ts[1..], id)
  }

  /**
   * FindTag finds nothing exactly when no element carries the id, and
   * otherwise the payload of the first element that does.
   */
  lemma {:induction false} FindTagFirst(ts: seq<Tag>, id: byte)
    ensures FindTag(ts, id).None? <==> forall i :: 0 <= i < |ts| ==> ts[i].id != id
    ensures FindTag(ts, id).Some? ==>
              exists i :: 0 <= i < |ts| && ts[i].id == id && ts[i].payload == FindTag(ts, id).value &&
                          forall j :: 0 <= j < i ==> ts[j].id != id
  {
    if ts != [] && ts[0].id != id {
      FindTagFirst(ts[1..], id);
      assert forall i :: 1 <= i < |ts| ==> ts[i] == ts[1..][i - 1];
      if FindTag(ts, id).Some? {
        var k :| 0 <= k < |ts| - 1 && ts[1..][k].id == id && ts[1..][k].payload == FindTag(ts, id).value &&
                 forall j :: 0 <= j < k ==> ts[1..][j].id != id;
        assert ts[k + 1].id == id && ts[k + 1].payload == FindTag(ts, id).value;
      }
    } else if ts != [] {
      assert ts[0].id == id;
    }
  }

  /**
   * GetTag: a field takes the payload of the first element with its id; when
   * there is none the field keeps its value and GetTag reports false.
   */
  function GetTag(field: Option<Payload>, ts: seq<Tag>, id: byte): Option<Payload>
  {
    var r := FindTag(ts, id);
    if r.Some? then r else field
  }

  /** PutTag: a field that holds a value is staged as one element; an empty one is not. */
  function Stage(id: byte, field: Option<Payload>): seq<Tag>
  {
    if field.Some? then [Tag(id, field.value)] else []
  }

  /** Stages the fields in the given order: the order the elements go on the wire. */
  function StageAll(ids: seq<byte>, fields: seq<Option<Payload>>): seq<Tag>
    requires |ids| == |fields|
  {
    if ids == [] then [] else Stage(ids[0], fields[0]) + StageAll(ids[1..], fields[1..])
  }

  ghost predicate Distinct(ids: seq<byte>)
  {
    forall i, j :: 0 <= i < j < |ids| ==> ids[i] != ids[j]
  }

  /** Staged elements carry only the ids that were asked for. */
  lemma {:induction false} StageAllIds(ids: seq<byte>, fields: seq<Option<Payload>>, id: byte)
    requires |ids| == |fields|
    requires id !in ids
    ensures FindTag(StageAll(ids, fields), id).None?
  {
    if ids != [] {
      StageAllIds(ids[1..], fields[1..], id);
      FindTagAppend(Stage(ids[0], fields[0]), StageAll(ids[1..], fields[1..]), id);
    }
  }

  lemma {:induction false} FindTagAppend(a: seq<Tag>, b: seq<Tag>, id: byte)
    ensures FindTag(a + b, id) == if FindTag(a, id).Some? then FindTag(a, id) else FindTag(b, id)
  {
    if a != [] {
      assert (a + b)[1..] == a[1..] + b;
      if a[0].id != id {
        FindTagAppend(a[1..], b, id);
      }
    } else {
      assert a + b == b;
    }
  }

  /**
   * With distinct ids, looking an id up among the staged elements gives back
   * exactly the field staged under it: its value, or nothing when it was empty.
   */
  lemma {:induction false} FindStaged(ids: seq<byte>, fields: seq<Option<Payload>>, k: nat)
    requires |ids| == |fields| && k < |ids|
    requires Distinct(ids)
    ensures FindTag(StageAll(ids, fields), ids[k]) == fields[k]
  {
    var head := Stage(ids[0], fields[0]);
    FindTagAppend(head, StageAll(ids[1..], fields[1..]), ids[k]);
    if k == 0 {
      StageAllIds(ids[1..], fields[1..], ids[0]);
    } else {
      FindStaged(ids[1..], fields[1..], k - 1);
    }
  }

  /** The staged elements appear in the order of their ids in the staging list. */
  lemma {:induction false} StagedInOrder(ids: seq<byte>, fields: seq<Option<Payload>>, i: nat, j: nat)
    requires |ids| == |fields|
    requires i < j < |StageAll(ids, fields)|
    ensures exists a, b :: 0 <= a < b < |ids| && StageAll(ids, fields)[i].id == ids[a] &&
                           StageAll(ids, fields)[j].id == ids[b]
  {
    var head := Stage(ids[0], fields[0]);
    var tail := StageAll(ids[1..], fields[1..]);
    assert StageAll(ids, fields) == head + tail;
    if i < |head| {
      assert StageAll(ids, fields)[i].id == ids[0];
      StagedIdIn(ids[1..], fields[1..], j - |head|);
      var b :| 0 <= b < |ids| - 1 && tail[j - |head|].id == ids[1..][b];
      assert StageAll(ids, fields)[j].id == ids[b + 1];
    } else {
      StagedInOrder(ids[1..], fields[1..], i - |head|, j - |head|);
      var a, b :| 0 <= a < b < |ids| - 1 && tail[i - |head|].id == ids[1..][a] &&
                  tail[j - |head|].id == ids[1..][b];
      assert StageAll(ids, fields)[i].id == ids[a + 1];
      assert StageAll(ids, fields)[j].id == ids[b + 1];
    }
  }

  lemma {:induction false} StagedIdIn(ids: seq<byte>, fields: seq<Option<Payload>>, i: nat)
    requires |ids| == |fields|
    requires i < |StageAll(ids, fields)|
    ensures exists b :: 0 <= b < |ids| && StageAll(ids, fields)[i].id == ids[b]
  {
    var head := Stage(ids[0], fields[0]);
    var tail := StageAll(ids[1..], fields[1..]);
    assert StageAll(ids, fields) == head + tail;
    if i < |head| {
      assert StageAll(ids, fields)[i].id == ids[0];
    } else {
      StagedIdIn(ids[1..], fields[1..], i - |head|);
      var b :| 0 <= b < |ids| - 1 && tail[i - |head|].id == ids[1..][b];
      assert StageAll(ids, fields)[i].id == ids[b + 1];
    }
  }

  // ---------------------------------------------------------------------
  // MAC header (IEEE Std 802.11-2016, section 9.3.3.2)
  // ---------------------------------------------------------------------

  type u2 = x: int | 0 <= x < 4
  type u4 = x: int | 0 <= x < 16

  const TYPE_MANAGEMENT: u2 := 0
  const SUBTYPE_PROBEREQ: u4 := 4
  const SUBTYPE_PROBERESP: u4 := 5

  datatype FrameControl = FrameControl(version: u2, ftype: u2, subtype: u4, flags: byte)

  type MacAddress = s: seq<byte> | |s| == 6 witness [0, 0, 0, 0, 0, 0]

  const ZERO_ADDRESS: MacAddress := [0, 0, 0, 0, 0, 0]

  datatype Header = Header(control: FrameControl, duration: u16, addr1: MacAddress,
                           addr2: MacAddress, addr3: MacAddress, seqControl: u16)

  const HEADER_LEN: nat := 24
  const FCS_LEN: nat := 4

  function FcsLen(fcs: bool): nat
  {
    if fcs then FCS_LEN else 0
  }

  /** A management frame as constructed: only its subtype is set. */
  function InitialHeader(subtype: u4): Header
  {
    Header(FrameControl(0, TYPE_MANAGEMENT, subtype, 0), 0, ZERO_ADDRESS, ZERO_ADDRESS, ZERO_ADDRESS, 0)
  }

  /** Frame control: protocol version in bits 0-1, type in bits 2-3, subtype in bits 4-7, then the flags. */
  function ControlBytes(fc: FrameControl): seq<byte>
  {
    [fc.version + 4 * fc.ftype + 16 * fc.subtype, fc.flags]
  }

  function ParseControl(s: seq<byte>): FrameControl
    requires |s| == 2
  {
    FrameControl(s[0] % 4, (s[0] / 4) % 4, s[0] / 16, s[1])
  }

  function HeaderBytes(h: Header): (r: seq<byte>)
    ensures |r| == HEADER_LEN
  {
    ControlBytes(h.control) + LE(h.duration, 2) + h.addr1 + h.addr2 + h.addr3 + LE(h.seqControl, 2)
  }

  function ParseHeader(s: seq<byte>): Header
    requires |s| == HEADER_LEN
  {
    Header(ParseControl(s[0..2]), U16Of(s[2..4]), s[4..10], s[10..16], s[16..22], U16Of(s[22..24]))
  }

  /** Every header reads back from its own wire form. */
  lemma HeaderRoundTrip(h: Header)
    ensures ParseHeader(HeaderBytes(h)) == h
  {
    var s := HeaderBytes(h);
    var c := ControlBytes(h.control);
    assert s[0..2] == c;
    assert ParseControl(c) == h.control;
    assert s[2..4] == LE(h.duration, 2);
    LE16RoundTrip(h.duration);
    assert s[4..10] == h.addr1;
    assert s[10..16] == h.addr2;
    assert s[16..22] == h.addr3;
    assert s[22..24] == LE(h.seqControl, 2);
    LE16RoundTrip(h.seqControl);
  }

  // ---------------------------------------------------------------------
  // What an assembly step produces
  // ---------------------------------------------------------------------

  /**
   * The result of writing: the bytes written from the start pointer and the
   * count left in rem_, or a refusal (NULL) with the count rem_ was left at.
   */
  datatype Emit = Emitted(out: seq<byte>, rem: nat) | Refused(rem: nat)

  /** Puts bytes in front of what a later step writes. */
  function Then(prefix: seq<byte>, e: Emit): Emit
  {
    match e
    case Emitted(out, r) => Emitted(prefix + out, r)
    case Refused(r) => Refused(r)
  }

  /** The base header step: reserve room for the FCS, then the 24-byte header. */
  function EmitHeader(h: Header, rem: nat, fcs: bool): (e: Emit)
    ensures e.Emitted? <==> rem >= FcsLen(fcs) + HEADER_LEN
    ensures e.Emitted? ==> e.out == HeaderBytes(h) && e.rem == rem - FcsLen(fcs) - HEADER_LEN
  {
    if rem < FcsLen(fcs) then Refused(rem)
    else if rem - FcsLen(fcs) < HEADER_LEN then Refused(rem - FcsLen(fcs))
    else Emitted(HeaderBytes(h), rem - FcsLen(fcs) - HEADER_LEN)
  }

  /**
   * AssembleTags: each staged element is put through the cursor in turn; the
   * first one that does not fit stops the assembly.
   */
  function EmitTags(ts: seq<Tag>, rem: nat): (e: Emit)
    ensures e.Emitted? <==> |TagsBytes(ts)| <= rem
    ensures e.Emitted? ==> e.out == TagsBytes(ts) && e.rem == rem - |TagsBytes(ts)|
    ensures e.Refused? ==> e.rem <= rem
  {
    if ts == [] then Emitted([], rem)
    else if |TagBytes(ts[0])| > rem then Refused(rem)
    else Then(TagBytes(ts[0]), EmitTags(ts[1..], rem - |TagBytes(ts[0])|))
  }

  // ---------------------------------------------------------------------
  // The buffer
  // ---------------------------------------------------------------------

  /** a with the bytes from position at overwritten by w. */
  function Overwrite(a: seq<byte>, at: nat, w: seq<byte>): (r: seq<byte>)
    requires at + |w| <= |a|
    ensures |r| == |a|
  {
    a[..at] + w + a[at + |w|..]
  }

  /** b differs from a at most in positions lo up to (not including) hi. */
  ghost predicate Confined(a: seq<byte>, b: seq<byte>, lo: nat, hi: nat)
  {
    |a| == |b| && forall k :: 0 <= k < |a| && (k < lo || hi <= k) ==> a[k] == b[k]
  }

  lemma OverwriteConfined(a: seq<byte>, at: nat, w: seq<byte>, lo: nat, hi: nat)
    requires at + |w| <= |a|
    requires lo <= at && at + |w| <= hi
    ensures Confined(a, Overwrite(a, at, w), lo, hi)
  {
    var b := Overwrite(a, at, w);
    forall k | 0 <= k < |a| && (k < lo || hi <= k)
      ensures a[k] == b[k]
    {
      if k >= at + |w| {
        assert b[k] == a[at + |w|..][k - at - |w|];
      }
    }
  }

  lemma OverwriteTwice(a: seq<byte>, at: nat, w1: seq<byte>, w2: seq<byte>)
    requires at + |w1| + |w2| <= |a|
    ensures Overwrite(Overwrite(a, at, w1), at + |w1|, w2) == Overwrite(a, at, w1 + w2)
  {
    var b := Overwrite(a, at, w1);
    assert b[..at + |w1|] == a[..at] + w1;
    assert b[at + |w1| + |w2|..] == a[at + |w1| + |w2|..];
  }

  lemma ConfinedTrans(a: seq<byte>, b: seq<byte>, c: seq<byte>, lo: nat, hi: nat)
    requires Confined(a, b, lo, hi) && Confined(b, c, lo, hi)
    ensures Confined(a, c, lo, hi)
  {
  }

  lemma ConfinedWiden(a: seq<byte>, b: seq<byte>, lo: nat, hi: nat, lo': nat, hi': nat)
    requires Confined(a, b, lo, hi) && lo' <= lo && hi <= hi'
    ensures Confined(a, b, lo', hi')
  {
  }

  /** A slice of a slice is a slice of the whole. */
  lemma SliceOfSlice(a: seq<byte>, lo: nat, hi: nat, i: nat, j: nat)
    requires lo <= hi <= |a| && i <= j <= hi - lo
    ensures a[lo..hi][i..j] == a[lo + i..lo + j]
  {
    forall k | 0 <= k < j - i
      ensures a[lo..hi][i..j][k] == a[lo + i..lo + j][k]
    {
    }
  }

  /** The header and what follows it, as slices of the rem bytes from position p. */
  lemma HeaderSplit(a: seq<byte>, p: nat, rem: nat, fcs: bool)
    requires p + rem <= |a| && rem >= FcsLen(fcs) + HEADER_LEN
    ensures a[p..p + rem][..HEADER_LEN] == a[p..p + HEADER_LEN]
    ensures a[p..p + rem][HEADER_LEN..rem - FcsLen(fcs)] == a[p + HEADER_LEN..p + rem - FcsLen(fcs)]
  {
    SliceOfSlice(a, p, p + rem, 0, HEADER_LEN);
    SliceOfSlice(a, p, p + rem, HEADER_LEN, rem - FcsLen(fcs));
  }

  /**
   * chklen: fails (NULL) when fewer than n bytes remain, and otherwise
   * advances the pointer by n and takes n off the remaining count.
   */
  method ChkLen(p: nat, n: nat, rem: nat) returns (q: Option<nat>, rem': nat)
    ensures q.Some? <==> n <= rem
    ensures q.Some? ==> q.value == p + n && rem' == rem - n
    ensures q.None? ==> rem' == rem
  {
    if n > rem {
      q, rem' := None, rem;
    } else {
      q, rem' := Some(p + n), rem - n;
    }
  }

  /** Copies w into the buffer at position at. */
  method WriteBytes(buf: array<byte>, at: nat, w: seq<byte>)
    requires at + |w| <= buf.Length
    modifies buf
    ensures buf[..] == Overwrite(old(buf[..]), at, w)
  {
    var i := 0;
    while i < |w|
      invariant 0 <= i <= |w|
      invariant forall k :: 0 <= k < buf.Length ==>
                  buf[k] == (if at <= k < at + i then w[k - at] else old(buf[k]))
    {
      buf[at + i] := w[i];
      i := i + 1;
    }
    assert buf[..] == Overwrite(old(buf[..]), at, w);
  }

  /** The base header step on assembly. */
  method AssembleHeader(buf: array<byte>, p: nat, rem: nat, fcs: bool, h: Header)
    returns (q: Option<nat>, rem': nat)
    requires p + rem <= buf.Length
    modifies buf
    ensures var e := EmitHeader(h, rem, fcs);
            (q.Some? <==> e.Emitted?) && rem' == e.rem &&
            (e.Emitted? ==> q.value == p + |e.out| && buf[..] == Overwrite(old(buf[..]), p, e.out)) &&
            (e.Refused? ==> buf[..] == old(buf[..]))
  {
    rem' := rem;
    if fcs {
      if rem' < FCS_LEN {
        return None, rem';
      }
      rem' := rem' - FCS_LEN;
    }
    q, rem' := ChkLen(p, HEADER_LEN, rem');
    if q.Some? {
      WriteBytes(buf, p, HeaderBytes(h));
    }
  }

  /** The base header step on disassembly: the FCS is set aside, then the header is read. */
  method DisassembleHeader(buf: array<byte>, p: nat, rem: nat, fcs: bool)
    returns (q: Option<nat>, rem': nat, h: Header)
    requires p + rem <= buf.Length
    ensures q.Some? <==> rem >= FcsLen(fcs) + HEADER_LEN
    ensures q.Some? ==> q.value == p + HEADER_LEN && rem' == rem - FcsLen(fcs) - HEADER_LEN &&
                        h == ParseHeader(buf[p..p + HEADER_LEN])
  {
    h := InitialHeader(0);
    rem' := rem;
    if fcs {
      if rem' < FCS_LEN {
        return None, rem', h;
      }
      rem' := rem' - FCS_LEN;
    }
    q, rem' := ChkLen(p, HEADER_LEN, rem');
    if q.Some? {
      h := ParseHeader(buf[p..p + HEADER_LEN]);
    }
  }

  lemma ThenThen(a: seq<byte>, b: seq<byte>, e: Emit)
    ensures Then(a, Then(b, e)) == Then(a + b, e)
  {
    if e.Emitted? {
      assert a + (b + e.out) == (a + b) + e.out;
    }
  }

  /** PutTag: one element through the cursor, written at pos iff its wire form fits in the r bytes left. */
  method PutTag(buf: array<byte>, pos: nat, r: nat, t: Tag) returns (next: Option<nat>, r': nat)
    requires pos + r <= buf.Length
    modifies buf
    ensures next.Some? <==> |TagBytes(t)| <= r
    ensures next.Some? ==> next.value == pos + |TagBytes(t)| && r' == r - |TagBytes(t)| &&
                           buf[..] == Overwrite(old(buf[..]), pos, TagBytes(t))
    ensures next.None? ==> r' == r && buf[..] == old(buf[..])
  {
    var w := TagBytes(t);
    next, r' := ChkLen(pos, |w|, r);
    if next.Some? {
      WriteBytes(buf, pos, w);
    }
  }

  /** AssembleTags: writes the staged elements one after the other. */
  method AssembleTags(buf: array<byte>, p: nat, rem: nat, ts: seq<Tag>)
    returns (q: Option<nat>, rem': nat)
    requires p + rem <= buf.Length
    modifies buf
    ensures var e := EmitTags(ts, rem);
            (q.Some? <==> e.Emitted?) && rem' == e.rem &&
            (e.Emitted? ==> q.value == p + |e.out| && buf[..] == Overwrite(old(buf[..]), p, e.out)) &&
            (e.Refused? ==> Confined(old(buf[..]), buf[..], p, p + rem))
  {
    var i: nat, pos: nat, r: nat := 0, p, rem;
    ghost var before := buf[..];
    ghost var done: seq<byte> := [];
    while i < |ts|
      invariant 0 <= i <= |ts|
      invariant done == TagsBytes(ts[..i])
      invariant pos == p + |done| && r + |done| == rem
      invariant buf[..] == Overwrite(before, p, done)
    {
      ghost var w := TagBytes(ts[i]);
      var next;
      next, r := PutTag(buf, pos, r, ts[i]);
      if next.None? {
        EmitTagsRefused(ts, i, rem);
        OverwriteConfined(before, p, done, p, p + rem);
        return None, r;
      }
      OverwriteTwice(before, p, done, w);
      TagsBytesSnoc(ts, i);
      done := done + w;
      i, pos := i + 1, next.value;
    }
    assert ts[..i] == ts;
    q, rem' := Some(pos), r;
  }

  /** Emitting a list is emitting its first i elements, then the rest in what they leave. */
  lemma {:induction false} EmitTagsSplit(ts: seq<Tag>, i: nat, rem: nat)
    requires i <= |ts| && |TagsBytes(ts[..i])| <= rem
    ensures EmitTags(ts, rem) == Then(TagsBytes(ts[..i]), EmitTags(ts[i..], rem - |TagsBytes(ts[..i])|))
  {
    if i == 0 {
      assert ts[..0] == [] && ts[0..] == ts;
      var e := EmitTags(ts, rem);
      if e.Emitted? {
        assert [] + e.out == e.out;
      }
    } else {
      TagsBytesSnoc(ts, i - 1);
      var before := TagsBytes(ts[..i - 1]);
      var w := TagBytes(ts[i - 1]);
      EmitTagsSplit(ts, i - 1, rem);
      EmitTagsStep(ts, i - 1, rem - |before|);
      ThenThen(before, w, EmitTags(ts[i..], rem - |before| - |w|));
    }
  }

  /** An element that does not fit in what its predecessors leave refuses the whole list. */
  lemma EmitTagsRefused(ts: seq<Tag>, i: nat, rem: nat)
    requires i < |ts| && |TagsBytes(ts[..i])| <= rem < |TagsBytes(ts[..i])| + |TagBytes(ts[i])|
    ensures EmitTags(ts, rem) == Refused(rem - |TagsBytes(ts[..i])|)
  {
    EmitTagsSplit(ts, i, rem);
    EmitTagsStop(ts, i, rem - |TagsBytes(ts[..i])|);
  }

  lemma EmitTagsStep(ts: seq<Tag>, i: nat, r: nat)
    requires i < |ts| && |TagBytes(ts[i])| <= r
    ensures EmitTags(ts[i..], r) == Then(TagBytes(ts[i]), EmitTags(ts[i + 1..], r - |TagBytes(ts[i])|))
  {
    assert ts[i..][1..] == ts[i + 1..];
  }

  lemma EmitTagsStop(ts: seq<Tag>, i: nat, r: nat)
    requires i < |ts| && |TagBytes(ts[i])| > r
    ensures EmitTags(ts[i..], r) == Refused(r)
  {
  }

  lemma TagsBytesSnoc(ts: seq<Tag>, i: nat)
    requires i < |ts|
    ensures TagsBytes(ts[..i + 1]) == TagsBytes(ts[..i]) + TagBytes(ts[i])
  {
    TagsBytesAppend(ts[..i], [ts[i]]);
    assert ts[..i + 1] == ts[..i] + [ts[i]];
    assert TagsBytes([ts[i]]) == TagBytes(ts[i]);
  }

  /**
   * DisassembleTags: reads elements until the remaining count is used up; an
   * element that runs past the end fails the whole step.
   */
  method DisassembleTags(buf: array<byte>, p: nat, rem: nat)
    returns (q: Option<nat>, rem': nat, ts: seq<Tag>)
    requires p + rem <= buf.Length
    ensures ParseTags(buf[p..p + rem]) == if q.Some? then Some(ts) else None
    ensures q.Some? ==> q.value == p + rem && rem' == 0
    ensures rem' <= rem
  {
    var pos: nat, r: nat := p, rem;
    ts := [];
    PrependNil(ParseTags(buf[p..p + rem]));
    while r > 0
      invariant p <= pos && pos + r == p + rem
      invariant ParseTags(buf[p..p + rem]) == Prepend(ts, ParseTags(buf[pos..pos + r]))
    {
      var s := buf[pos..pos + r];
      if r < 2 || r - 2 < buf[pos + 1] {
        assert ParseTags(s) == None;
        return None, r, ts;
      }
      var len: nat := buf[pos + 1];
      assert s[2 + len..] == buf[pos + 2 + len..pos + r];
      var t := Tag(s[0], PayloadAt(s, 2, len));
      ParseAdvance(buf[p..p + rem], s, ts);
      ts := ts + [t];
      pos, r := pos + 2 + len, r - 2 - len;
    }
    assert ParseTags(buf[pos..pos + r]) == Some([]);
    assert ts + [] == ts;
    q, rem' := Some(pos), r;
  }

  /** The len bytes of s from position at, as an element payload. */
  function PayloadAt(s: seq<byte>, at: nat, len: nat): (r: Payload)
    requires at + len <= |s| && len <= 255
  {
    s[at..at + len]
  }

  function Prepend(ts: seq<Tag>, r: Option<seq<Tag>>): Option<seq<Tag>>
  {
    match r
    case None => None
    case Some(rest) => Some(ts + rest)
  }

  lemma PrependNil(r: Option<seq<Tag>>)
    ensures Prepend([], r) == r
  {
    if r.Some? {
      assert [] + r.value == r.value;
    }
  }

  /** The loop step of DisassembleTags: one more element moves from the unparsed rest to the list. */
  lemma ParseAdvance(w: seq<byte>, s: seq<byte>, ts: seq<Tag>)
    requires |s| >= 2 && s[1] as int <= |s| - 2
    requires ParseTags(w) == Prepend(ts, ParseTags(s))
    ensures ParseTags(w) == Prepend(ts + [Tag(s[0], s[2..2 + s[1]])], ParseTags(s[2 + s[1]..]))
  {
    ParseTagsStep(s);
    PrependAppend(ts, Tag(s[0], s[2..2 + s[1]]), ParseTags(s[2 + s[1]..]));
  }

  lemma PrependAppend(ts: seq<Tag>, t: Tag, r: Option<seq<Tag>>)
    ensures Prepend(ts, Prepend([t], r)) == Prepend(ts + [t], r)
  {
    if r.Some? {
      assert ts + ([t] + r.value) == (ts + [t]) + r.value;
    }
  }
}
