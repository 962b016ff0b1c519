/** The staging protocol between the I/O side and the isolated driver peer: a request header and up to four
    buffer segments travel through one shared frame, are acted on by the peer, and are read back. */
module IrpStaging {
  import opened Words
  import opened Sizes

  const FRAME_LEN := 4096
  const HEADER_LEN := 256
  const ABI_VERSION := 15

  const IRP_MJ_CREATE := 0x00
  const IRP_MJ_CLOSE := 0x02
  const IRP_MJ_READ := 0x03
  const IRP_MJ_WRITE := 0x04
  const IRP_MJ_FLUSH_BUFFERS := 0x09
  const IRP_MJ_DEVICE_CONTROL := 0x0e
  const IRP_MJ_INTERNAL_DEVICE_CONTROL := 0x0f
  const IRP_MJ_CLEANUP := 0x12

  const METHOD_IN_DIRECT := 1
  const METHOD_OUT_DIRECT := 2
  const METHOD_NEITHER := 3

  // ----- the header -----

  /** A little-endian field. */
  function Field(h: Bytes, at: nat, width: nat): (v: nat)
    requires at + width <= |h|
    ensures v < Pow256(width)
    decreases width
  {
    if width == 0 then 0 else h[at] + 256 * Field(h, at + 1, width - 1)
  }

  /** The bytes of a field are the header's bytes, lowest first. */
  lemma {:induction false} FieldByte(h: Bytes, at: nat, width: nat, k: nat)
    requires at + width <= |h| && k < width
    ensures ByteOf(Field(h, at, width), k) == h[at + k]
    decreases width
  {
    var rest := Field(h, at + 1, width - 1);
    assert (h[at] + 256 * rest) % 256 == h[at] && (h[at] + 256 * rest) / 256 == rest;
    if k > 0 {
      FieldByte(h, at + 1, width - 1, k - 1);
    }
  }

  /** A request is its 256 header bytes; it crosses the frame as they are. */
  type Request = h: Bytes | |h| == HEADER_LEN witness seq(HEADER_LEN, i => 0)

  /** The fields of the header that staging and the peer look at. */
  datatype HeaderField =
    | AbiVersion | AbiSize | MajorCode
    | TargetDomain | TargetCookie | ProviderDomain | ProviderCookie
    | BufferOffset | BufferLen | DirectOffset | DirectLen | Type3Offset | Type3Len | UserOffset | UserLen
    | InputBytes | OutputBytes | IoctlCode

  /** Where a field starts and how wide it is. */
  function Place(f: HeaderField): (r: (nat, nat))
    ensures r.0 + r.1 <= HEADER_LEN
  {
    match f
    case AbiVersion => (0, 2)
    case AbiSize => (2, 2)
    case MajorCode => (4, 1)
    case TargetDomain => (16, 8)
    case TargetCookie => (24, 8)
    case ProviderDomain => (32, 8)
    case ProviderCookie => (40, 8)
    case BufferOffset => (104, 8)
    case BufferLen => (112, 4)
    case DirectOffset => (116, 4)
    case DirectLen => (120, 4)
    case Type3Offset => (124, 4)
    case Type3Len => (128, 4)
    case UserOffset => (132, 4)
    case UserLen => (136, 4)
    case InputBytes => (140, 4)
    case OutputBytes => (144, 4)
    case IoctlCode => (148, 4)
  }

  function Get(h: Request, f: HeaderField): nat {
    Field(h, Place(f).0, Place(f).1)
  }

  /** A buffer segment of the frame; length zero means absent. */
  datatype Segment = Segment(offset: nat, len: nat) {
    function End(): nat { offset + len }
  }

  function System(h: Request): Segment { Segment(Get(h, BufferOffset), Get(h, BufferLen)) }
  function Direct(h: Request): Segment { Segment(Get(h, DirectOffset), Get(h, DirectLen)) }
  function Type3(h: Request): Segment { Segment(Get(h, Type3Offset), Get(h, Type3Len)) }
  function User(h: Request): Segment { Segment(Get(h, UserOffset), Get(h, UserLen)) }
  function InputLen(h: Request): nat { Get(h, InputBytes) }
  function OutputLen(h: Request): nat { Get(h, OutputBytes) }
  function Method(h: Request): nat { Get(h, IoctlCode) % 4 }
  function Major(h: Request): nat { Get(h, MajorCode) }

  predicate HeaderOk(h: Request) {
    && Get(h, AbiVersion) == ABI_VERSION && Get(h, AbiSize) == HEADER_LEN
    && Get(h, TargetDomain) != 0 && Get(h, TargetCookie) != 0
    && ((Get(h, ProviderDomain) == 0) == (Get(h, ProviderCookie) == 0))
  }

  // ----- bounds -----

  function SegmentEnd(s: Segment): Option<nat> {
    if s.len == 0 then Some(0) else CheckedAdd(s.offset, s.len)
  }

  predicate EndsBy(s: Segment, total: nat) {
    s.len != 0 ==> s.End() <= total
  }

  /** The segments in the order they are staged. */
  function SegOf(h: Request, k: nat): Segment
    requires k < 4
  {
    if k == 0 then System(h) else if k == 1 then Direct(h) else if k == 2 then Type3(h) else User(h)
  }

  /** The latest end among the header and the first `k` segments, unless one overflows. */
  function EndOf(h: Request, k: nat): (n: Option<nat>)
    requires k <= 4
    ensures n.Some? ==> n.value >= HEADER_LEN && forall i :: 0 <= i < k ==> EndsBy(SegOf(h, i), n.value)
  {
    if k == 0 then Some(HEADER_LEN)
    else
      var rest, end := EndOf(h, k - 1), SegmentEnd(SegOf(h, k - 1));
      if rest.None? || end.None? then None else Some(Max(rest.value, end.value))
  }

  /** Bytes of the frame a request occupies. */
  function StagedLen(h: Request): Option<nat> {
    EndOf(h, 4)
  }

  /** The staged length covers the header and every segment, and is none exactly when an end overflows. */
  lemma StagedLenCovers(h: Request)
    ensures StagedLen(h).Some? ==>
              && StagedLen(h).value >= HEADER_LEN
              && EndsBy(System(h), StagedLen(h).value) && EndsBy(Direct(h), StagedLen(h).value)
              && EndsBy(Type3(h), StagedLen(h).value) && EndsBy(User(h), StagedLen(h).value)
    ensures StagedLen(h).None? <==> exists k :: 0 <= k < 4 && SegmentEnd(SegOf(h, k)).None?
  {
    EndNone(h, 4);
    if StagedLen(h).Some? {
      assert forall k :: 0 <= k < 4 ==> EndsBy(SegOf(h, k), StagedLen(h).value);
      assert SegOf(h, 0) == System(h) && SegOf(h, 1) == Direct(h) && SegOf(h, 2) == Type3(h) && SegOf(h, 3) == User(h);
    }
  }

  lemma {:induction false} EndNone(h: Request, k: nat)
    requires k <= 4
    ensures EndOf(h, k).None? <==> exists i :: 0 <= i < k && SegmentEnd(SegOf(h, i)).None?
  {
    if k > 0 {
      EndNone(h, k - 1);
      assert SegmentEnd(SegOf(h, k - 1)).None? ==> EndOf(h, k).None?;
    }
  }

  predicate SegmentMatches(s: Segment, actual: nat) {
    s.len == actual && ((s.len == 0 && s.offset == 0) || (s.len != 0 && s.offset >= HEADER_LEN))
  }

  /** The caller's buffers; absent ones stage nothing. */
  datatype Buffers = Buffers(system: Bytes, direct: Option<Bytes>, type3: Option<Bytes>, user: Option<Bytes>)

  function DataOf(b: Option<Bytes>): Bytes {
    if b.Some? then b.value else []
  }

  /** What `dispatch` lets through. */
  predicate Acceptable(h: Request, b: Buffers) {
    && StagedLen(h).Some? && StagedLen(h).value <= FRAME_LEN
    && SegmentMatches(System(h), |b.system|)
    && SegmentMatches(Direct(h), |DataOf(b.direct)|)
    && SegmentMatches(Type3(h), |DataOf(b.type3)|)
    && SegmentMatches(User(h), |DataOf(b.user)|)
  }

  /** A segment past the header and inside the frame, or absent. */
  predicate InFrame(s: Segment) {
    s.len != 0 ==> HEADER_LEN <= s.offset && s.End() <= FRAME_LEN
  }

  predicate Apart(a: Segment, b: Segment) {
    a.len == 0 || b.len == 0 || a.End() <= b.offset || b.End() <= a.offset
  }

  // ----- frame contents -----

  function SegmentAt(f: Bytes, s: Segment): Bytes
    requires |f| == FRAME_LEN && InFrame(s)
  {
    if s.len == 0 then [] else f[s.offset..s.End()]
  }

  /** `f` with `data` written from `at` on. */
  function Overlay(f: Bytes, at: nat, data: Bytes): (g: Bytes)
    requires data == [] || at + |data| <= |f|
    ensures |g| == |f|
  {
    if data == [] then f else f[..at] + data + f[at + |data|..]
  }

  /** The peer's copy: byte by byte upwards, so that overlapping ranges feed back. */
  function CopyForward(f: Bytes, from: nat, to: nat, n: nat): (g: Bytes)
    requires n == 0 || (from + n <= |f| && to + n <= |f|)
    ensures |g| == |f|
  {
    if n == 0 then f else
    var g := CopyForward(f, from, to, n - 1);
    g[to + n - 1 := g[from + n - 1]]
  }

  lemma {:induction false} CopyForwardAt(f: Bytes, from: nat, to: nat, n: nat, k: nat)
    requires n == 0 || (from + n <= |f| && to + n <= |f|)
    requires to <= from || from + n <= to
    requires k < |f|
    ensures CopyForward(f, from, to, n)[k] == if to <= k < to + n then f[from + (k - to)] else f[k]
  {
    if n > 0 {
      CopyForwardAt(f, from, to, n - 1, k);
      CopyForwardAt(f, from, to, n - 1, from + n - 1);
    }
  }

  lemma OverlayAt(f: Bytes, at: nat, data: Bytes, k: nat)
    requires (data == [] || at + |data| <= |f|) && k < |f|
    ensures Overlay(f, at, data)[k] == if at <= k < at + |data| then data[k - at] else f[k]
  {
  }

  /** Copying downwards or between ranges that do not overlap moves the bytes as they were. */
  lemma CopyMoves(f: Bytes, from: nat, to: nat, n: nat)
    requires from + n <= |f| && to + n <= |f| && (to <= from || from + n <= to)
    ensures CopyForward(f, from, to, n) == Overlay(f, to, f[from..from + n])
  {
    var g, data := CopyForward(f, from, to, n), f[from..from + n];
    forall k | 0 <= k < |f| ensures g[k] == Overlay(f, to, data)[k] {
      CopyForwardAt(f, from, to, n, k);
      OverlayAt(f, to, data, k);
    }
  }

  /** A frame whose only nonzero byte is at `i`. */
  function Spot(len: nat, i: nat): Bytes {
    seq(len, k => if k == i then 1 else 0)
  }

  lemma {:induction false} SpotErased(len: nat, from: nat, to: nat, n: nat)
    requires 0 < n && from < to && to + n <= len
    ensures CopyForward(Spot(len, to), from, to, n) == seq(len, k => 0)
  {
    if n > 1 {
      SpotErased(len, from, to, n - 1);
    } else {
      assert CopyForward(Spot(len, to), from, to, 0) == Spot(len, to);
    }
  }

  /** Copying upwards onto an overlapping range is the one case that does not move the bytes as they were. */
  lemma CopyMovesExactly(len: nat, from: nat, to: nat, n: nat)
    requires from + n <= len && to + n <= len
    ensures (forall f: Bytes :: |f| == len ==> CopyForward(f, from, to, n) == Overlay(f, to, f[from..from + n]))
            <==> (to <= from || from + n <= to)
  {
    if to <= from || from + n <= to {
      forall f: Bytes | |f| == len ensures CopyForward(f, from, to, n) == Overlay(f, to, f[from..from + n]) {
        CopyMoves(f, from, to, n);
      }
    } else {
      var f := Spot(len, to);
      SpotErased(len, from, to, n);
      assert Overlay(f, to, f[from..from + n])[to + (to - from)] == f[to] == 1;
      assert CopyForward(f, from, to, n)[to + (to - from)] == 0;
    }
  }

  lemma OverlayElsewhere(f: Bytes, at: nat, data: Bytes, s: Segment)
    requires |f| == FRAME_LEN && InFrame(s) && (data == [] || at + |data| <= |f|)
    requires Apart(s, Segment(at, |data|))
    ensures SegmentAt(Overlay(f, at, data), s) == SegmentAt(f, s)
  {
  }

  // ----- the peer -----

  datatype Status = Success | InvalidParameter | InvalidDeviceRequest

  const PEER_DATA: Bytes := [0x70, 0x65, 0x65, 0x72, 0x72, 0x65, 0x61, 0x64]

  /** The input and output segments of an IOCTL. */
  function IoctlInput(h: Request): Segment {
    if Method(h) == METHOD_NEITHER then Type3(h) else System(h)
  }

  function IoctlOutput(h: Request): Segment {
    if Method(h) == METHOD_NEITHER then User(h)
    else if Method(h) == METHOD_IN_DIRECT || Method(h) == METHOD_OUT_DIRECT then Direct(h)
    else System(h)
  }

  function IoctlCount(h: Request): (n: nat)
    ensures n <= IoctlInput(h).len && n <= IoctlOutput(h).len
  {
    Min(Min(InputLen(h), OutputLen(h)), Min(IoctlInput(h).len, IoctlOutput(h).len))
  }

  predicate IsIoctl(h: Request) {
    Major(h) == IRP_MJ_DEVICE_CONTROL || Major(h) == IRP_MJ_INTERNAL_DEVICE_CONTROL
  }

  /** The part of the frame `frame_slice_mut` lends out, or nothing when it leaves the staged bytes. */
  function FrameSlice(total: nat, s: Segment): Option<Segment> {
    if s.len == 0 then Some(Segment(0, 0))
    else
      var end := CheckedAdd(s.offset, s.len);
      if end.None? || end.value > total || end.value > FRAME_LEN then None else Some(s)
  }

  method CopyFrameBytes(frame: array<byte>, total: nat, from: nat, to: nat, n: nat) returns (ok: bool)
    requires frame.Length == FRAME_LEN && n > 0
    modifies frame
    ensures ok <==> FrameSlice(total, Segment(from, n)).Some? && FrameSlice(total, Segment(to, n)).Some?
    ensures !ok ==> frame[..] == old(frame[..])
    ensures ok ==> from + n <= FRAME_LEN && to + n <= FRAME_LEN && frame[..] == CopyForward(old(frame[..]), from, to, n)
  {
    var input := FrameSlice(total, Segment(from, n));
    if input.None? {
      return false;
    }
    var output := FrameSlice(total, Segment(to, n));
    if output.None? {
      return false;
    }
    ghost var f := frame[..];
    if from == to {
      CopyMoves(f, from, to, n);
      return true;
    }
    var i := 0;
    while i < n
      invariant 0 <= i <= n && frame[..] == CopyForward(f, from, to, i)
    {
      ghost var g := frame[..];
      frame[to + i] := frame[from + i];
      assert frame[..] == g[to + i := g[from + i]];
      i := i + 1;
    }
    return true;
  }

  predicate IoctlFits(h: Request, total: nat) {
    var n := IoctlCount(h);
    n == 0 || (FrameSlice(total, Segment(IoctlInput(h).offset, n)).Some? &&
               FrameSlice(total, Segment(IoctlOutput(h).offset, n)).Some?)
  }

  /** The peer finds nothing wrong with the bounds of the segments it uses. */
  predicate Fits(h: Request, total: nat) {
    && total >= HEADER_LEN
    && (Major(h) == IRP_MJ_READ ==> FrameSlice(total, System(h)).Some?)
    && (IsIoctl(h) ==> IoctlFits(h, total))
  }

  /** What the peer leaves in the frame, and what it answers. */
  ghost function PeerFrame(f: Bytes, h: Request, total: nat): (g: Bytes)
    requires |f| == FRAME_LEN
    ensures |g| == FRAME_LEN
  {
    if !Fits(h, total) || !HeaderOk(h) then f
    else if Major(h) == IRP_MJ_READ then Overlay(f, System(h).offset, PEER_DATA[..Min(8, System(h).len)])
    else if IsIoctl(h) then CopyForward(f, IoctlInput(h).offset, IoctlOutput(h).offset, IoctlCount(h))
    else f
  }

  ghost function PeerAnswer(h: Request, total: nat): (Status, nat) {
    if !Fits(h, total) then (InvalidParameter, 0) else Answer(h)
  }

  /** Every segment of the request lies past the header, within the staged bytes and within the frame. */
  predicate BoundsOk(h: Request) {
    && StagedLen(h).Some? && StagedLen(h).value <= FRAME_LEN
    && InFrame(System(h)) && InFrame(Direct(h)) && InFrame(Type3(h)) && InFrame(User(h))
  }

  lemma AcceptedIsBounded(h: Request, b: Buffers)
    requires Acceptable(h, b)
    ensures BoundsOk(h)
  {
    StagedLenCovers(h);
  }

  lemma SliceFits(total: nat, s: Segment, n: nat)
    requires n <= s.len && EndsBy(s, total) && total <= FRAME_LEN
    ensures FrameSlice(total, Segment(s.offset, n)).Some?
  {
  }

  /** Bounds agreement: what `dispatch` accepts, the peer never rejects for bounds. */
  lemma BoundsAgree(h: Request)
    requires BoundsOk(h)
    ensures Fits(h, StagedLen(h).value)
  {
    var total := StagedLen(h).value;
    StagedLenCovers(h);
    SliceFits(total, System(h), System(h).len);
    IoctlBoundsAgree(h, total);
  }

  lemma IoctlBoundsAgree(h: Request, total: nat)
    requires total <= FRAME_LEN
    requires EndsBy(System(h), total) && EndsBy(Direct(h), total) && EndsBy(Type3(h), total) && EndsBy(User(h), total)
    ensures IoctlFits(h, total)
  {
    SliceFits(total, IoctlInput(h), IoctlCount(h));
    SliceFits(total, IoctlOutput(h), IoctlCount(h));
  }

  method WriteSegment(frame: array<byte>, offset: nat, data: Bytes)
    requires data == [] || offset + |data| <= frame.Length
    modifies frame
    ensures frame[..] == Overlay(old(frame[..]), offset, data)
  {
    ghost var f := frame[..];
    var i := 0;
    while i < |data|
      invariant 0 <= i <= |data| && frame[..] == Overlay(f, offset, data[..i])
    {
      ghost var g := frame[..];
      frame[offset + i] := data[i];
      assert frame[..] == g[offset + i := data[i]];
      i := i + 1;
    }
    assert data[..|data|] == data;
  }

  method ReadSegment(frame: array<byte>, s: Segment) returns (data: Bytes)
    requires frame.Length == FRAME_LEN && InFrame(s)
    ensures data == SegmentAt(frame[..], s)
  {
    data := [];
    var i := 0;
    while i < s.len
      invariant 0 <= i <= s.len && (s.len != 0 ==> data == frame[s.offset..s.offset + i])
      invariant s.len == 0 ==> data == []
    {
      data := data + [frame[s.offset + i]];
      i := i + 1;
    }
  }

  method HandleRead(frame: array<byte>, total: nat, s: Segment) returns (status: Status, information: nat)
    requires frame.Length == FRAME_LEN
    modifies frame
    ensures FrameSlice(total, s).None? ==> status == InvalidParameter && information == 0 && frame[..] == old(frame[..])
    ensures FrameSlice(total, s).Some? ==>
              && status == Success && information == Min(8, s.len) && EndsBy(s, FRAME_LEN)
              && frame[..] == Overlay(old(frame[..]), s.offset, PEER_DATA[..Min(8, s.len)])
  {
    var slice := FrameSlice(total, s);
    if slice.None? {
      return InvalidParameter, 0;
    }
    var n := Min(|PEER_DATA|, slice.value.len);
    WriteSegment(frame, slice.value.offset, PEER_DATA[..n]);
    return Success, n;
  }

  method HandleIoctl(frame: array<byte>, total: nat, h: Request) returns (status: Status, information: nat)
    requires frame.Length == FRAME_LEN
    modifies frame
    ensures IoctlFits(h, total) ==> status == Success && information == IoctlCount(h)
    ensures IoctlFits(h, total) ==>
              frame[..] == CopyForward(old(frame[..]), IoctlInput(h).offset, IoctlOutput(h).offset, IoctlCount(h))
    ensures !IoctlFits(h, total) ==> status == InvalidParameter && information == 0 && frame[..] == old(frame[..])
  {
    var n := IoctlCount(h);
    if n != 0 {
      var ok := CopyFrameBytes(frame, total, IoctlInput(h).offset, IoctlOutput(h).offset, n);
      if !ok {
        return InvalidParameter, 0;
      }
    }
    return Success, n;
  }

  /** The peer decodes the header from the frame and acts on it. */
  method Handle(frame: array<byte>, total: nat) returns (status: Status, information: nat)
    requires frame.Length == FRAME_LEN
    modifies frame
    ensures (status, information) == PeerAnswer(old(frame[..HEADER_LEN]), total)
    ensures frame[..] == PeerFrame(old(frame[..]), old(frame[..HEADER_LEN]), total)
  {
    if total < HEADER_LEN {
      return InvalidParameter, 0;
    }
    var h: Request := frame[..HEADER_LEN];
    if !HeaderOk(h) {
      return InvalidParameter, 0;
    }
    var major := Major(h);
    if major == IRP_MJ_CREATE {
      return Success, 0;
    } else if major == IRP_MJ_READ {
      status, information := HandleRead(frame, total, System(h));
    } else if major == IRP_MJ_WRITE {
      return Success, System(h).len;
    } else if major == IRP_MJ_DEVICE_CONTROL || major == IRP_MJ_INTERNAL_DEVICE_CONTROL {
      status, information := HandleIoctl(frame, total, h);
    } else if major == IRP_MJ_CLEANUP || major == IRP_MJ_CLOSE || major == IRP_MJ_FLUSH_BUFFERS {
      return Success, 0;
    } else {
      return InvalidDeviceRequest, 0;
    }
  }

  // ----- the I/O side -----

  /** What a request asks the peer to do to the frame. */
  datatype Act = Idle | Fill | ToDirect | ToUser

  /** A request reduced to its segments, its effect on the frame and how many bytes that moves. */
  datatype Plan = Plan(system: Segment, direct: Segment, type3: Segment, user: Segment, act: Act, n: nat) {
    /** The segments in the order they are staged. */
    function Segs(): seq<Segment> {
      [system, direct, type3, user]
    }

    predicate InBounds() {
      InFrame(system) && InFrame(direct) && InFrame(type3) && InFrame(user) && MovesWithin()
    }

    predicate MovesWithin() {
      match act
      case Idle => true
      case Fill => n <= system.len && n <= 8
      case ToDirect => n <= system.len && n <= direct.len
      case ToUser => n <= type3.len && n <= user.len
    }
  }

  /** A read fills the system buffer; a direct IOCTL copies from the system to the direct buffer, a neither
      IOCTL from the Type 3 to the user buffer, a buffered one onto itself. */
  function ActOf(h: Request): Act {
    if !HeaderOk(h) then Idle
    else if Major(h) == IRP_MJ_READ then Fill
    else if !IsIoctl(h) then Idle
    else if Method(h) == METHOD_NEITHER then ToUser
    else if Method(h) == METHOD_IN_DIRECT || Method(h) == METHOD_OUT_DIRECT then ToDirect
    else Idle
  }

  function PlanOf(h: Request): Plan {
    var n := if ActOf(h) == Fill then Min(8, System(h).len) else IoctlCount(h);
    Plan(System(h), Direct(h), Type3(h), User(h), ActOf(h), n)
  }

  lemma PlanBounded(h: Request)
    requires BoundsOk(h)
    ensures PlanOf(h).InBounds()
  {
    assert IoctlCount(h) <= IoctlInput(h).len && IoctlCount(h) <= IoctlOutput(h).len;
  }

  /** What the peer does to a frame. */
  ghost function Acted(g: Bytes, p: Plan): (r: Bytes)
    requires |g| == FRAME_LEN && p.InBounds()
    ensures |r| == FRAME_LEN
  {
    match p.act
    case Idle => g
    case Fill => Overlay(g, p.system.offset, PEER_DATA[..p.n])
    case ToDirect => CopyForward(g, p.system.offset, p.direct.offset, p.n)
    case ToUser => CopyForward(g, p.type3.offset, p.user.offset, p.n)
  }

  /** The peer carries out the plan. */
  lemma PeerActs(g: Bytes, h: Request)
    requires |g| == FRAME_LEN && BoundsOk(h) && PlanOf(h).InBounds()
    ensures PeerFrame(g, h, StagedLen(h).value) == Acted(g, PlanOf(h))
  {
    BoundsAgree(h);
    if ActOf(h) == Idle && HeaderOk(h) && IsIoctl(h) {
      OntoItself(g, System(h), IoctlCount(h));
    }
  }

  lemma OntoItself(g: Bytes, s: Segment, n: nat)
    requires |g| == FRAME_LEN && InFrame(s) && n <= s.len
    ensures CopyForward(g, s.offset, s.offset, n) == g
  {
    if n != 0 {
      CopyMoves(g, s.offset, s.offset, n);
      assert Overlay(g, s.offset, g[s.offset..s.offset + n]) == g;
    }
  }

  // ----- staging -----

  function Datas(b: Buffers): seq<Bytes> {
    [b.system, DataOf(b.direct), DataOf(b.type3), DataOf(b.user)]
  }

  /** The data is as long as its segment, which lies past the header and inside the frame. */
  predicate FitsIn(s: Segment, data: Bytes) {
    InFrame(s) && |data| == s.len
  }

  ghost predicate AllFit(segs: seq<Segment>, datas: seq<Bytes>) {
    |segs| == |datas| && forall k {:trigger FitsIn(segs[k], datas[k])} :: 0 <= k < |segs| ==> FitsIn(segs[k], datas[k])
  }

  /** Each buffer is as long as its segment. */
  predicate Suits(p: Plan, b: Buffers) {
    && |b.system| == p.system.len && |DataOf(b.direct)| == p.direct.len
    && |DataOf(b.type3)| == p.type3.len && |DataOf(b.user)| == p.user.len
  }

  lemma SuitsFit(p: Plan, b: Buffers)
    requires p.InBounds() && Suits(p, b)
    ensures AllFit(p.Segs(), Datas(b))
  {
  }

  lemma AcceptedSuits(h: Request, b: Buffers)
    requires Acceptable(h, b)
    ensures BoundsOk(h) && PlanOf(h).InBounds() && Suits(PlanOf(h), b)
  {
    AcceptedIsBounded(h, b);
    PlanBounded(h);
  }

  /** A frame after the first `k` segments were written, in their order. */
  ghost function StagedTo(f: Bytes, segs: seq<Segment>, datas: seq<Bytes>, k: nat): (g: Bytes)
    requires |f| == FRAME_LEN && AllFit(segs, datas) && k <= |segs|
    ensures |g| == FRAME_LEN
  {
    if k == 0 then f
    else
      assert FitsIn(segs[k - 1], datas[k - 1]);
      Overlay(StagedTo(f, segs, datas, k - 1), segs[k - 1].offset, datas[k - 1])
  }

  ghost function StagedBy(f: Bytes, p: Plan, b: Buffers): (g: Bytes)
    requires |f| == FRAME_LEN && p.InBounds() && Suits(p, b)
    ensures |g| == FRAME_LEN
  {
    SuitsFit(p, b);
    StagedTo(f, p.Segs(), Datas(b), 4)
  }

  /** The header, then the segments. */
  ghost function Staged(f: Bytes, h: Request, b: Buffers): (g: Bytes)
    requires |f| == FRAME_LEN && Acceptable(h, b)
    ensures |g| == FRAME_LEN
  {
    AcceptedSuits(h, b);
    StagedBy(Overlay(f, 0, h), PlanOf(h), b)
  }

  lemma OverlayKeepsHeader(f: Bytes, s: Segment, data: Bytes)
    requires |f| == FRAME_LEN && InFrame(s) && |data| <= s.len
    ensures Overlay(f, s.offset, data)[..HEADER_LEN] == f[..HEADER_LEN]
  {
  }

  /** No segment, overlapping or not, touches the header. */
  lemma {:induction false} StagingKeepsHeader(f: Bytes, segs: seq<Segment>, datas: seq<Bytes>, k: nat)
    requires |f| == FRAME_LEN && AllFit(segs, datas) && k <= |segs|
    ensures StagedTo(f, segs, datas, k)[..HEADER_LEN] == f[..HEADER_LEN]
  {
    if k > 0 {
      StagingKeepsHeader(f, segs, datas, k - 1);
      assert FitsIn(segs[k - 1], datas[k - 1]);
      OverlayKeepsHeader(StagedTo(f, segs, datas, k - 1), segs[k - 1], datas[k - 1]);
    }
  }

  lemma HeaderStaged(f: Bytes, h: Request, b: Buffers)
    requires |f| == FRAME_LEN && Acceptable(h, b)
    ensures Staged(f, h, b)[..HEADER_LEN] == h
  {
    AcceptedSuits(h, b);
    SuitsFit(PlanOf(h), b);
    StagingKeepsHeader(Overlay(f, 0, h), PlanOf(h).Segs(), Datas(b), 4);
    assert Overlay(f, 0, h)[..HEADER_LEN] == h;
  }

  /** `s` without its first `k` bytes. */
  function Rest(s: Segment, k: nat): Segment {
    Segment(s.offset + k, if k <= s.len then s.len - k else 0)
  }

  predicate Inside(part: Segment, s: Segment) {
    s.offset <= part.offset && part.End() <= s.End()
  }

  lemma OverlayPart(f: Bytes, s: Segment, data: Bytes, part: Segment)
    requires |f| == FRAME_LEN && FitsIn(s, data) && Inside(part, s)
    ensures InFrame(part)
    ensures SegmentAt(Overlay(f, s.offset, data), part) == data[part.offset - s.offset..part.End() - s.offset]
  {
  }

  /** A part of a segment that no later one overlaps holds its buffer's bytes. */
  lemma {:induction false} PartStaged(f: Bytes, segs: seq<Segment>, datas: seq<Bytes>, k: nat, x: nat, part: Segment)
    requires |f| == FRAME_LEN && AllFit(segs, datas) && x < k <= |segs| && Inside(part, segs[x])
    requires forall j :: x < j < k ==> Apart(part, segs[j])
    ensures InFrame(part) && |datas[x]| == segs[x].len
    ensures SegmentAt(StagedTo(f, segs, datas, k), part) ==
              datas[x][part.offset - segs[x].offset..part.End() - segs[x].offset]
    decreases k
  {
    assert FitsIn(segs[k - 1], datas[k - 1]);
    var g := StagedTo(f, segs, datas, k - 1);
    if x == k - 1 {
      OverlayPart(g, segs[x], datas[x], part);
    } else {
      PartStaged(f, segs, datas, k - 1, x, part);
      assert Apart(part, segs[k - 1]);
      OverlayElsewhere(g, segs[k - 1].offset, datas[k - 1], part);
    }
  }

  // ----- what a round trip delivers -----

  /** `data` with its first bytes replaced by `front`. */
  function Fronted(data: Bytes, front: Bytes): Bytes
    requires |front| <= |data|
  {
    front + data[|front|..]
  }

  function FrontedOption(data: Option<Bytes>, front: Bytes): Option<Bytes>
    requires |front| <= |DataOf(data)|
  {
    if data.None? then None else Some(Fronted(data.value, front))
  }

  /** The caller's buffers after a request: only the buffer the plan is about has a new front. */
  ghost function DeliveredBy(p: Plan, b: Buffers): Buffers
    requires p.InBounds() && Suits(p, b)
  {
    match p.act
    case Idle => b
    case Fill => b.(system := Fronted(b.system, PEER_DATA[..p.n]))
    case ToDirect => b.(direct := FrontedOption(b.direct, b.system[..p.n]))
    case ToUser => b.(user := FrontedOption(b.user, DataOf(b.type3)[..p.n]))
  }

  ghost function Delivered(h: Request, b: Buffers): Buffers
    requires Acceptable(h, b)
  {
    AcceptedSuits(h, b);
    DeliveredBy(PlanOf(h), b)
  }

  /** What is read back: all but the Type 3 input. */
  function Collected(f: Bytes, p: Plan, b: Buffers): Buffers
    requires |f| == FRAME_LEN && p.InBounds()
  {
    Buffers(SegmentAt(f, p.system),
            if b.direct.None? then None else Some(SegmentAt(f, p.direct)),
            b.type3,
            if b.user.None? then None else Some(SegmentAt(f, p.user)))
  }

  /** What the caller gets back of a frame the header was just written to. */
  ghost function ReturnedBy(f: Bytes, p: Plan, b: Buffers): Buffers
    requires |f| == FRAME_LEN && p.InBounds() && Suits(p, b)
  {
    Collected(Acted(StagedBy(f, p, b), p), p, b)
  }

  /** The overlaps that do no harm: only of the Type 3 input, which is not read back, and only with bytes the
      peer overwrites, or with the user buffer past the bytes it copies. */
  predicate Harmless(p: Plan) {
    && Apart(p.system, p.direct) && Apart(p.system, p.user) && Apart(p.direct, p.user)
    && Apart(Rest(p.system, Replaced(p, Fill)), p.type3)
    && Apart(Rest(p.direct, Replaced(p, ToDirect)), p.type3)
    && Apart(Segment(p.type3.offset, Replaced(p, ToUser)), p.user)
  }

  /** The bytes the peer replaces by `act`. */
  function Replaced(p: Plan, act: Act): nat {
    if p.act == act then p.n else 0
  }

  predicate Disjoint(p: Plan) {
    && Apart(p.system, p.direct) && Apart(p.system, p.type3) && Apart(p.system, p.user)
    && Apart(p.direct, p.type3) && Apart(p.direct, p.user) && Apart(p.type3, p.user)
  }

  lemma DisjointHarmless(p: Plan)
    requires p.InBounds() && Disjoint(p)
    ensures Harmless(p)
  {
  }

  /** A write at the front of a segment leaves the rest of it. */
  lemma FrontWritten(f: Bytes, s: Segment, front: Bytes, rest: Bytes)
    requires |f| == FRAME_LEN && InFrame(s) && |front| <= s.len && InFrame(Rest(s, |front|))
    requires SegmentAt(f, Rest(s, |front|)) == rest
    ensures SegmentAt(Overlay(f, s.offset, front), s) == front + rest
  {
    if s.len != 0 {
      assert Overlay(f, s.offset, front)[s.offset..s.End()] == front + f[s.offset + |front|..s.End()];
    }
  }

  /** The peer's copy between segments that are apart is one write at the output's front. */
  lemma SegmentCopy(f: Bytes, i: Segment, o: Segment, n: nat)
    requires |f| == FRAME_LEN && InFrame(i) && InFrame(o) && n <= i.len && n <= o.len && Apart(Segment(i.offset, n), o)
    ensures CopyForward(f, i.offset, o.offset, n) == Overlay(f, o.offset, SegmentAt(f, i)[..n])
  {
    if n != 0 {
      CopyMoves(f, i.offset, o.offset, n);
      assert SegmentAt(f, i)[..n] == f[i.offset..i.offset + n];
    }
  }

  /** A harmless request's segments once everything is staged: what the peer does not replace is there, and
      so is what it copies. */
  ghost predicate Ready(g: Bytes, p: Plan, b: Buffers)
    requires |g| == FRAME_LEN && p.InBounds() && Suits(p, b)
  {
    var i, j, k := Replaced(p, Fill), Replaced(p, ToDirect), Replaced(p, ToUser);
    && InFrame(Rest(p.system, i)) && SegmentAt(g, Rest(p.system, i)) == b.system[i..]
    && InFrame(Rest(p.direct, j)) && SegmentAt(g, Rest(p.direct, j)) == DataOf(b.direct)[j..]
    && InFrame(Segment(p.type3.offset, k)) && SegmentAt(g, Segment(p.type3.offset, k)) == DataOf(b.type3)[..k]
    && SegmentAt(g, p.user) == DataOf(b.user)
  }

  /** From byte `k` on, a segment apart from the later ones holds its buffer. */
  lemma RestStaged(f: Bytes, segs: seq<Segment>, datas: seq<Bytes>, x: nat, k: nat)
    requires |f| == FRAME_LEN && AllFit(segs, datas) && x < |segs| && k <= segs[x].len
    requires forall j :: x < j < |segs| ==> Apart(Rest(segs[x], k), segs[j])
    ensures InFrame(Rest(segs[x], k)) && |datas[x]| == segs[x].len
    ensures SegmentAt(StagedTo(f, segs, datas, |segs|), Rest(segs[x], k)) == datas[x][k..]
  {
    assert FitsIn(segs[x], datas[x]);
    var part, n := Rest(segs[x], k), |datas[x]|;
    PartStaged(f, segs, datas, |segs|, x, part);
    assert part.offset - segs[x].offset == k && part.End() - segs[x].offset == n;
    assert datas[x][k..n] == datas[x][k..];
  }

  lemma SystemReady(f: Bytes, p: Plan, b: Buffers, i: nat)
    requires |f| == FRAME_LEN && p.InBounds() && Suits(p, b) && Harmless(p) && i == Replaced(p, Fill)
    ensures InFrame(Rest(p.system, i)) && i <= |b.system|
    ensures SegmentAt(StagedBy(f, p, b), Rest(p.system, i)) == b.system[i..]
  {
    SuitsFit(p, b);
    RestStaged(f, p.Segs(), Datas(b), 0, i);
  }

  lemma DirectReady(f: Bytes, p: Plan, b: Buffers, i: nat)
    requires |f| == FRAME_LEN && p.InBounds() && Suits(p, b) && Harmless(p) && i == Replaced(p, ToDirect)
    ensures InFrame(Rest(p.direct, i)) && i <= |DataOf(b.direct)|
    ensures SegmentAt(StagedBy(f, p, b), Rest(p.direct, i)) == DataOf(b.direct)[i..]
  {
    SuitsFit(p, b);
    RestStaged(f, p.Segs(), Datas(b), 1, i);
  }

  lemma Type3Ready(f: Bytes, p: Plan, b: Buffers, i: nat)
    requires |f| == FRAME_LEN && p.InBounds() && Suits(p, b) && Harmless(p) && i == Replaced(p, ToUser)
    ensures InFrame(Segment(p.type3.offset, i)) && i <= |DataOf(b.type3)|
    ensures SegmentAt(StagedBy(f, p, b), Segment(p.type3.offset, i)) == DataOf(b.type3)[..i]
  {
    SuitsFit(p, b);
    PartStaged(f, p.Segs(), Datas(b), 4, 2, Segment(p.type3.offset, i));
  }

  lemma UserReady(f: Bytes, p: Plan, b: Buffers)
    requires |f| == FRAME_LEN && p.InBounds() && Suits(p, b)
    ensures SegmentAt(StagedBy(f, p, b), p.user) == DataOf(b.user)
  {
    SuitsFit(p, b);
    WholeRest(p.user);
    RestStaged(f, p.Segs(), Datas(b), 3, 0);
  }

  lemma StagedReady(f: Bytes, p: Plan, b: Buffers)
    requires |f| == FRAME_LEN && p.InBounds() && Suits(p, b) && Harmless(p)
    ensures Ready(StagedBy(f, p, b), p, b)
  {
    SystemReady(f, p, b, Replaced(p, Fill));
    DirectReady(f, p, b, Replaced(p, ToDirect));
    Type3Ready(f, p, b, Replaced(p, ToUser));
    UserReady(f, p, b);
  }

  /** The three segments read back hold the buffers `d`. */
  ghost predicate Shows(r: Bytes, p: Plan, d: Buffers)
    requires |r| == FRAME_LEN && p.InBounds()
  {
    SegmentAt(r, p.system) == d.system && SegmentAt(r, p.direct) == DataOf(d.direct)
    && SegmentAt(r, p.user) == DataOf(d.user)
  }

  lemma WholeRest(s: Segment)
    ensures Rest(s, 0) == s
  {
  }

  lemma FillShows(g: Bytes, p: Plan, b: Buffers)
    requires |g| == FRAME_LEN && p.InBounds() && Suits(p, b) && Harmless(p) && Ready(g, p, b) && p.act.Fill?
    ensures Shows(Acted(g, p), p, DeliveredBy(p, b))
  {
    var front := PEER_DATA[..p.n];
    WholeRest(p.direct);
    FrontWritten(g, p.system, front, b.system[p.n..]);
    OverlayElsewhere(g, p.system.offset, front, p.direct);
    OverlayElsewhere(g, p.system.offset, front, p.user);
  }

  lemma ToDirectShows(g: Bytes, p: Plan, b: Buffers)
    requires |g| == FRAME_LEN && p.InBounds() && Suits(p, b) && Harmless(p) && Ready(g, p, b) && p.act.ToDirect?
    ensures Shows(Acted(g, p), p, DeliveredBy(p, b))
  {
    var front := b.system[..p.n];
    WholeRest(p.system);
    SegmentCopy(g, p.system, p.direct, p.n);
    FrontWritten(g, p.direct, front, DataOf(b.direct)[p.n..]);
    OverlayElsewhere(g, p.direct.offset, front, p.system);
    OverlayElsewhere(g, p.direct.offset, front, p.user);
  }

  lemma ToUserShows(g: Bytes, p: Plan, b: Buffers)
    requires |g| == FRAME_LEN && p.InBounds() && Suits(p, b) && Harmless(p) && Ready(g, p, b) && p.act.ToUser?
    ensures Shows(Acted(g, p), p, DeliveredBy(p, b))
  {
    var front, t := DataOf(b.type3)[..p.n], Segment(p.type3.offset, p.n);
    WholeRest(p.system);
    WholeRest(p.direct);
    SegmentCopy(g, t, p.user, p.n);
    assert SegmentAt(g, t)[..p.n] == front;
    UserRest(g, p, b);
    FrontWritten(g, p.user, front, DataOf(b.user)[p.n..]);
    OverlayElsewhere(g, p.user.offset, front, p.system);
    OverlayElsewhere(g, p.user.offset, front, p.direct);
  }

  lemma UserRest(g: Bytes, p: Plan, b: Buffers)
    requires |g| == FRAME_LEN && p.InBounds() && SegmentAt(g, p.user) == DataOf(b.user) && p.n <= p.user.len
    ensures InFrame(Rest(p.user, p.n)) && SegmentAt(g, Rest(p.user, p.n)) == DataOf(b.user)[p.n..]
  {
  }

  lemma CollectsShown(r: Bytes, p: Plan, b: Buffers)
    requires |r| == FRAME_LEN && p.InBounds() && Suits(p, b) && Shows(r, p, DeliveredBy(p, b))
    ensures Collected(r, p, b) == DeliveredBy(p, b)
  {
  }

  /** Without a harmful overlap the caller gets exactly what should be delivered. */
  lemma HarmlessReturns(f: Bytes, p: Plan, b: Buffers)
    requires |f| == FRAME_LEN && p.InBounds() && Suits(p, b) && Harmless(p)
    ensures ReturnedBy(f, p, b) == DeliveredBy(p, b)
  {
    var g := StagedBy(f, p, b);
    StagedReady(f, p, b);
    match p.act {
      case Idle =>
        WholeRest(p.system);
        WholeRest(p.direct);
      case Fill => FillShows(g, p, b);
      case ToDirect => ToDirectShows(g, p, b);
      case ToUser => ToUserShows(g, p, b);
    }
    CollectsShown(Acted(g, p), p, b);
  }

  lemma {:induction false} CopyBelow(f: Bytes, from: nat, to: nat, n: nat)
    requires n == 0 || (from + n <= |f| && to + n <= |f|)
    requires n == 0 || HEADER_LEN <= to
    requires HEADER_LEN <= |f|
    ensures CopyForward(f, from, to, n)[..HEADER_LEN] == f[..HEADER_LEN]
  {
    if n > 0 {
      CopyBelow(f, from, to, n - 1);
    }
  }

  /** Even with overlapping segments the peer leaves the header alone. */
  lemma ActingKeepsHeader(g: Bytes, p: Plan)
    requires |g| == FRAME_LEN && p.InBounds()
    ensures Acted(g, p)[..HEADER_LEN] == g[..HEADER_LEN]
  {
    match p.act
    case Idle =>
    case Fill => OverlayKeepsHeader(g, p.system, PEER_DATA[..p.n]);
    case ToDirect => CopyBelow(g, p.system.offset, p.direct.offset, p.n);
    case ToUser => CopyBelow(g, p.type3.offset, p.user.offset, p.n);
  }

  /** The frame a request leaves behind, and what the caller gets back. */
  ghost function Final(f: Bytes, h: Request, b: Buffers): (g: Bytes)
    requires |f| == FRAME_LEN && Acceptable(h, b)
    ensures |g| == FRAME_LEN
  {
    PeerFrame(Staged(f, h, b), h, StagedLen(h).value)
  }

  ghost function Returned(f: Bytes, h: Request, b: Buffers): Buffers
    requires |f| == FRAME_LEN && Acceptable(h, b)
  {
    AcceptedSuits(h, b);
    Collected(Final(f, h, b), PlanOf(h), b)
  }

  /** From staging to reading back, over the frame's contents. */
  lemma RoundTrip(f: Bytes, h: Request, b: Buffers)
    requires |f| == FRAME_LEN && Acceptable(h, b)
    ensures Final(f, h, b)[..HEADER_LEN] == h
    ensures PlanOf(h).InBounds() && Suits(PlanOf(h), b)
            && Returned(f, h, b) == ReturnedBy(Overlay(f, 0, h), PlanOf(h), b)
    ensures Harmless(PlanOf(h)) ==> Returned(f, h, b) == Delivered(h, b)
  {
    AcceptedSuits(h, b);
    HeaderStaged(f, h, b);
    PeerActs(Staged(f, h, b), h);
    ActingKeepsHeader(Staged(f, h, b), PlanOf(h));
    if Harmless(PlanOf(h)) {
      HarmlessReturns(Overlay(f, 0, h), PlanOf(h), b);
    }
  }

  // ----- the overlaps that do harm -----

  ghost predicate AgreeBut(f: Bytes, g: Bytes, x: int) {
    |f| == |g| && forall k :: 0 <= k < |f| && k != x ==> f[k] == g[k]
  }

  predicate Holds(s: Segment, x: nat) {
    s.offset <= x < s.End()
  }

  /** A write keeps two frames as alike as they were, and makes them equal if it covers where they differ. */
  lemma OverlayAgree(f: Bytes, g: Bytes, x: nat, at: nat, data: Bytes)
    requires AgreeBut(f, g, x) && (data == [] || at + |data| <= |f|)
    ensures AgreeBut(Overlay(f, at, data), Overlay(g, at, data), x)
    ensures at <= x < at + |data| ==> Overlay(f, at, data) == Overlay(g, at, data)
  {
    forall k | 0 <= k < |f|
      ensures k != x || at <= x < at + |data| ==> Overlay(f, at, data)[k] == Overlay(g, at, data)[k]
    {
      OverlayAt(f, at, data, k);
      OverlayAt(g, at, data, k);
    }
  }

  lemma OverlayDiffer(f: Bytes, at: nat, d: Bytes, e: Bytes, x: nat)
    requires AgreeBut(d, e, x - at) && (d == [] || at + |d| <= |f|)
    ensures AgreeBut(Overlay(f, at, d), Overlay(f, at, e), x)
  {
    forall k | 0 <= k < |f| && k != x ensures Overlay(f, at, d)[k] == Overlay(f, at, e)[k] {
      OverlayAt(f, at, d, k);
      OverlayAt(f, at, e, k);
    }
  }

  /** `d` and `e` differ at most in the byte of segment `i` at address `x`. */
  ghost predicate OneByteApart(segs: seq<Segment>, d: seq<Bytes>, e: seq<Bytes>, i: nat, x: nat) {
    && i < |segs| == |d| == |e| && AgreeBut(d[i], e[i], x - segs[i].offset)
    && forall j :: 0 <= j < |segs| && j != i ==> d[j] == e[j]
  }

  /** Buffers that differ in one byte stage frames that differ at most there. */
  lemma {:induction false} StagedAgree(f: Bytes, segs: seq<Segment>, d: seq<Bytes>, e: seq<Bytes>, k: nat, i: nat,
                                       x: nat)
    requires |f| == FRAME_LEN && AllFit(segs, d) && AllFit(segs, e) && k <= |segs| && OneByteApart(segs, d, e, i, x)
    ensures AgreeBut(StagedTo(f, segs, d, k), StagedTo(f, segs, e, k), x)
    decreases k
  {
    if k > 0 {
      StagedAgree(f, segs, d, e, k - 1, i, x);
      if k - 1 == i {
        StagedDiffer(f, segs, d, e, k, x);
      } else {
        StagedAlike(f, segs, d, e, k, x);
      }
    }
  }

  /** And they do not differ at all if a later segment `y` covers it. */
  lemma {:induction false} StagedSame(f: Bytes, segs: seq<Segment>, d: seq<Bytes>, e: seq<Bytes>, k: nat, i: nat,
                                      y: nat, x: nat)
    requires |f| == FRAME_LEN && AllFit(segs, d) && AllFit(segs, e) && i < y < k <= |segs|
    requires OneByteApart(segs, d, e, i, x) && Holds(segs[y], x)
    ensures StagedTo(f, segs, d, k) == StagedTo(f, segs, e, k)
    decreases k
  {
    StagedAgree(f, segs, d, e, k - 1, i, x);
    if y < k - 1 {
      StagedSame(f, segs, d, e, k - 1, i, y, x);
    }
    StagedAlike(f, segs, d, e, k, x);
  }

  lemma StagedDiffer(f: Bytes, segs: seq<Segment>, d: seq<Bytes>, e: seq<Bytes>, k: nat, x: nat)
    requires |f| == FRAME_LEN && AllFit(segs, d) && AllFit(segs, e) && k > 0 && OneByteApart(segs, d, e, k - 1, x)
    ensures AgreeBut(StagedTo(f, segs, d, k), StagedTo(f, segs, e, k), x)
  {
    assert FitsIn(segs[k - 1], d[k - 1]) && FitsIn(segs[k - 1], e[k - 1]);
    StagedBefore(f, segs, d, e, k - 1);
    OverlayDiffer(StagedTo(f, segs, d, k - 1), segs[k - 1].offset, d[k - 1], e[k - 1], x);
  }

  lemma StagedAlike(f: Bytes, segs: seq<Segment>, d: seq<Bytes>, e: seq<Bytes>, k: nat, x: nat)
    requires |f| == FRAME_LEN && AllFit(segs, d) && AllFit(segs, e) && 0 < k <= |segs| && d[k - 1] == e[k - 1]
    requires AgreeBut(StagedTo(f, segs, d, k - 1), StagedTo(f, segs, e, k - 1), x)
    ensures AgreeBut(StagedTo(f, segs, d, k), StagedTo(f, segs, e, k), x)
    ensures Holds(segs[k - 1], x) || StagedTo(f, segs, d, k - 1) == StagedTo(f, segs, e, k - 1) ==>
              StagedTo(f, segs, d, k) == StagedTo(f, segs, e, k)
  {
    assert FitsIn(segs[k - 1], d[k - 1]);
    OverlayAgree(StagedTo(f, segs, d, k - 1), StagedTo(f, segs, e, k - 1), x, segs[k - 1].offset, d[k - 1]);
  }

  lemma {:induction false} StagedBefore(f: Bytes, segs: seq<Segment>, d: seq<Bytes>, e: seq<Bytes>, k: nat)
    requires |f| == FRAME_LEN && AllFit(segs, d) && AllFit(segs, e) && k <= |segs|
    requires forall j :: 0 <= j < k ==> d[j] == e[j]
    ensures StagedTo(f, segs, d, k) == StagedTo(f, segs, e, k)
  {
    if k > 0 {
      StagedBefore(f, segs, d, e, k - 1);
    }
  }

  /** Zeros, but for a one at address `x` if `on`. */
  function Mark(s: Segment, on: bool, x: nat): Bytes {
    Spot(s.len, if on && s.offset <= x then x - s.offset else s.len)
  }

  /** Buffers of zeros, but for a one at address `x` of segment `i`. */
  function Marked(p: Plan, i: nat, x: nat): Buffers {
    Buffers(Mark(p.system, i == 0, x), Some(Mark(p.direct, i == 1, x)),
            Some(Mark(p.type3, i == 2, x)), Some(Mark(p.user, i == 3, x)))
  }

  function Blank(p: Plan): Buffers {
    Marked(p, 4, 0)
  }

  lemma MarkedSuits(p: Plan, i: nat, x: nat)
    requires p.InBounds()
    ensures Suits(p, Marked(p, i, x)) && Suits(p, Blank(p))
  {
  }

  lemma MarkAgrees(s: Segment, x: nat)
    requires Holds(s, x)
    ensures AgreeBut(Mark(s, true, x), Mark(s, false, 0), x - s.offset)
  {
  }

  lemma MarkOff(s: Segment, x: nat)
    ensures Mark(s, false, x) == Mark(s, false, 0)
  {
  }

  /** What a mark does to the staged frame. */
  lemma MarkStaged(f: Bytes, p: Plan, i: nat, y: nat, x: nat)
    requires |f| == FRAME_LEN && p.InBounds() && i < y <= 4 && Holds(p.Segs()[i], x)
             && (y < 4 ==> Holds(p.Segs()[y], x))
    ensures Suits(p, Marked(p, i, x)) && Suits(p, Blank(p))
    ensures AgreeBut(StagedBy(f, p, Marked(p, i, x)), StagedBy(f, p, Blank(p)), x)
    ensures y < 4 ==> StagedBy(f, p, Marked(p, i, x)) == StagedBy(f, p, Blank(p))
  {
    var b, c := Marked(p, i, x), Blank(p);
    MarkedSuits(p, i, x);
    SuitsFit(p, b);
    SuitsFit(p, c);
    MarkAgrees(p.Segs()[i], x);
    forall j | 0 <= j < 4 && j != i ensures Datas(b)[j] == Datas(c)[j] {
      MarkOff(p.Segs()[j], x);
    }
    StagedAgree(f, p.Segs(), Datas(b), Datas(c), 4, i, x);
    if y < 4 {
      StagedSame(f, p.Segs(), Datas(b), Datas(c), 4, i, y, x);
    }
  }

  /** The peer's write hides where two frames differ. */
  lemma PeerHides(g: Bytes, r: Bytes, p: Plan, x: nat)
    requires |g| == FRAME_LEN && p.InBounds() && AgreeBut(g, r, x)
    requires (p.act.Fill? && Holds(Segment(p.system.offset, p.n), x))
             || (p.act.ToDirect? && Holds(Segment(p.direct.offset, p.n), x) && Apart(p.system, p.direct))
    ensures Acted(g, p) == Acted(r, p)
  {
    if p.act.Fill? {
      OverlayAgree(g, r, x, p.system.offset, PEER_DATA[..p.n]);
    } else {
      SegmentCopy(g, p.system, p.direct, p.n);
      SegmentCopy(r, p.system, p.direct, p.n);
      assert SegmentAt(g, p.system) == SegmentAt(r, p.system);
      OverlayAgree(g, r, x, p.direct.offset, SegmentAt(g, p.system)[..p.n]);
    }
  }

  /** The byte at `x` of segment `i` shows in what should be delivered. */
  predicate Matters(p: Plan, i: nat, x: nat) {
    || (i == 0 && Holds(Rest(p.system, Replaced(p, Fill)), x))
    || (i == 1 && Holds(Rest(p.direct, Replaced(p, ToDirect)), x))
    || (i == 2 && Holds(Segment(p.type3.offset, Replaced(p, ToUser)), x))
    || (i == 3 && Holds(Rest(p.user, Replaced(p, ToUser)), x))
  }

  /** Whatever the buffers hold, the caller gets what should be delivered. */
  ghost predicate DeliversAll(f: Bytes, p: Plan)
    requires |f| == FRAME_LEN && p.InBounds()
  {
    forall b :: Suits(p, b) ==> ReturnedBy(f, p, b) == DeliveredBy(p, b)
  }

  /** Two requests that should deliver different bytes, but leave the same frame, cannot both be right. */
  lemma Indistinct(f: Bytes, p: Plan, i: nat, x: nat)
    requires |f| == FRAME_LEN && p.InBounds() && Matters(p, i, x)
    requires Suits(p, Marked(p, i, x)) && Suits(p, Blank(p))
    requires Acted(StagedBy(f, p, Marked(p, i, x)), p) == Acted(StagedBy(f, p, Blank(p)), p)
    ensures !DeliversAll(f, p)
  {
    if DeliversAll(f, p) {
      var b, c := Marked(p, i, x), Blank(p);
      assert ReturnedBy(f, p, b) == DeliveredBy(p, b) && ReturnedBy(f, p, c) == DeliveredBy(p, c);
      MarkShows(p, i, x);
    }
  }

  lemma MarkShows(p: Plan, i: nat, x: nat)
    requires p.InBounds() && Matters(p, i, x) && Suits(p, Marked(p, i, x)) && Suits(p, Blank(p))
    ensures var d, e := DeliveredBy(p, Marked(p, i, x)), DeliveredBy(p, Blank(p));
            d.system != e.system || d.direct != e.direct || d.user != e.user
  {
    match i
    case 0 => SystemMarkShows(p, x);
    case 1 => DirectMarkShows(p, x);
    case 2 => Type3MarkShows(p, x);
    case _ => UserMarkShows(p, x);
  }

  lemma SystemMarkShows(p: Plan, x: nat)
    requires p.InBounds() && Matters(p, 0, x) && Suits(p, Marked(p, 0, x)) && Suits(p, Blank(p))
    ensures DeliveredBy(p, Marked(p, 0, x)).system != DeliveredBy(p, Blank(p)).system
  {
    var k := x - p.system.offset;
    assert DeliveredBy(p, Marked(p, 0, x)).system[k] == 1 && DeliveredBy(p, Blank(p)).system[k] == 0;
  }

  lemma DirectMarkShows(p: Plan, x: nat)
    requires p.InBounds() && Matters(p, 1, x) && Suits(p, Marked(p, 1, x)) && Suits(p, Blank(p))
    ensures DeliveredBy(p, Marked(p, 1, x)).direct != DeliveredBy(p, Blank(p)).direct
  {
    var k := x - p.direct.offset;
    assert DeliveredBy(p, Marked(p, 1, x)).direct.value[k] == 1 && DeliveredBy(p, Blank(p)).direct.value[k] == 0;
  }

  lemma Type3MarkShows(p: Plan, x: nat)
    requires p.InBounds() && Matters(p, 2, x) && Suits(p, Marked(p, 2, x)) && Suits(p, Blank(p))
    ensures DeliveredBy(p, Marked(p, 2, x)).user != DeliveredBy(p, Blank(p)).user
  {
    var k := x - p.type3.offset;
    assert DeliveredBy(p, Marked(p, 2, x)).user.value[k] == 1 && DeliveredBy(p, Blank(p)).user.value[k] == 0;
  }

  lemma UserMarkShows(p: Plan, x: nat)
    requires p.InBounds() && Matters(p, 3, x) && Suits(p, Marked(p, 3, x)) && Suits(p, Blank(p))
    ensures DeliveredBy(p, Marked(p, 3, x)).user != DeliveredBy(p, Blank(p)).user
  {
    var k := x - p.user.offset;
    assert DeliveredBy(p, Marked(p, 3, x)).user.value[k] == 1 && DeliveredBy(p, Blank(p)).user.value[k] == 0;
  }

  /** Byte `x` of segment `i` is overwritten by segment `y` before the peer sees it. */
  lemma LostInStaging(f: Bytes, p: Plan, i: nat, y: nat, x: nat)
    requires |f| == FRAME_LEN && p.InBounds() && i < y < 4 && Holds(p.Segs()[i], x) && Holds(p.Segs()[y], x)
    requires Matters(p, i, x)
    ensures !DeliversAll(f, p)
  {
    MarkStaged(f, p, i, y, x);
    Indistinct(f, p, i, x);
  }

  /** Byte `x` of segment `i` is overwritten by the peer before it is read back. */
  lemma LostToPeer(f: Bytes, p: Plan, i: nat, x: nat)
    requires |f| == FRAME_LEN && p.InBounds() && i < 4 && Holds(p.Segs()[i], x) && Matters(p, i, x)
    requires (p.act.Fill? && Holds(Segment(p.system.offset, p.n), x))
             || (p.act.ToDirect? && Holds(Segment(p.direct.offset, p.n), x) && Apart(p.system, p.direct))
    ensures !DeliversAll(f, p)
  {
    MarkStaged(f, p, i, 4, x);
    PeerHides(StagedBy(f, p, Marked(p, i, x)), StagedBy(f, p, Blank(p)), p, x);
    Indistinct(f, p, i, x);
  }

  /** A byte in both segments. */
  function Common(a: Segment, b: Segment): nat {
    Max(a.offset, b.offset)
  }

  lemma CommonHeld(a: Segment, b: Segment)
    requires !Apart(a, b)
    ensures Holds(a, Common(a, b)) && Holds(b, Common(a, b))
  {
  }

  lemma OutputOverlapHarms(f: Bytes, p: Plan)
    requires |f| == FRAME_LEN && p.InBounds()
    requires !Apart(p.system, p.direct) || !Apart(p.system, p.user) || !Apart(p.direct, p.user)
    ensures !DeliversAll(f, p)
  {
    if !Apart(p.system, p.direct) || !Apart(p.system, p.user) {
      var y := if !Apart(p.system, p.direct) then 1 else 3;
      var x := Common(p.system, p.Segs()[y]);
      CommonHeld(p.system, p.Segs()[y]);
      if p.act.Fill? && x < p.system.offset + p.n {
        LostToPeer(f, p, y, x);
      } else {
        LostInStaging(f, p, 0, y, x);
      }
    } else {
      var x := Common(p.direct, p.user);
      CommonHeld(p.direct, p.user);
      if p.act.ToDirect? && x < p.direct.offset + p.n {
        LostToPeer(f, p, 3, x);
      } else {
        LostInStaging(f, p, 1, 3, x);
      }
    }
  }

  lemma Type3OverlapHarms(f: Bytes, p: Plan)
    requires |f| == FRAME_LEN && p.InBounds()
    requires || !Apart(Rest(p.system, Replaced(p, Fill)), p.type3)
             || !Apart(Rest(p.direct, Replaced(p, ToDirect)), p.type3)
             || !Apart(Segment(p.type3.offset, Replaced(p, ToUser)), p.user)
    ensures !DeliversAll(f, p)
  {
    var s, d := Rest(p.system, Replaced(p, Fill)), Rest(p.direct, Replaced(p, ToDirect));
    var t := Segment(p.type3.offset, Replaced(p, ToUser));
    if !Apart(s, p.type3) {
      CommonHeld(s, p.type3);
      LostInStaging(f, p, 0, 2, Common(s, p.type3));
    } else if !Apart(d, p.type3) {
      CommonHeld(d, p.type3);
      LostInStaging(f, p, 1, 2, Common(d, p.type3));
    } else {
      CommonHeld(t, p.user);
      LostInStaging(f, p, 2, 3, Common(t, p.user));
    }
  }

  /** Exactly the requests without a harmful overlap deliver what they should, whatever their buffers hold. */
  lemma DeliversExactly(f: Bytes, p: Plan)
    requires |f| == FRAME_LEN && p.InBounds()
    ensures DeliversAll(f, p) <==> Harmless(p)
  {
    if Harmless(p) {
      forall b | Suits(p, b) ensures ReturnedBy(f, p, b) == DeliveredBy(p, b) {
        HarmlessReturns(f, p, b);
      }
    } else if !Apart(p.system, p.direct) || !Apart(p.system, p.user) || !Apart(p.direct, p.user) {
      OutputOverlapHarms(f, p);
    } else {
      Type3OverlapHarms(f, p);
    }
  }

  /** A header `dispatch` accepts with buffers of the right lengths. */
  predicate Stageable(h: Request) {
    && StagedLen(h).Some? && StagedLen(h).value <= FRAME_LEN
    && SegmentMatches(System(h), System(h).len) && SegmentMatches(Direct(h), Direct(h).len)
    && SegmentMatches(Type3(h), Type3(h).len) && SegmentMatches(User(h), User(h).len)
  }

  lemma AcceptableSuits(h: Request, b: Buffers)
    requires Stageable(h)
    ensures Acceptable(h, b) <==> Suits(PlanOf(h), b)
  {
  }

  lemma StageableBounded(h: Request)
    requires Stageable(h)
    ensures BoundsOk(h) && PlanOf(h).InBounds()
  {
    StagedLenCovers(h);
    PlanBounded(h);
  }

  /** The same of `dispatch`: for a request it accepts, exactly those whose overlaps are harmless come back
      right for every content of the buffers. */
  lemma DispatchExactly(f: Bytes, h: Request)
    requires |f| == FRAME_LEN && Stageable(h)
    ensures (forall b :: Acceptable(h, b) ==> Returned(f, h, b) == Delivered(h, b)) <==> Harmless(PlanOf(h))
  {
    StageableBounded(h);
    var p, g := PlanOf(h), Overlay(f, 0, h);
    DeliversExactly(g, p);
    forall b | Acceptable(h, b)
      ensures Suits(p, b) && Returned(f, h, b) == ReturnedBy(g, p, b) && Delivered(h, b) == DeliveredBy(p, b)
    {
      RoundTrip(f, h, b);
    }
    forall b | Suits(p, b) ensures Acceptable(h, b) {
      AcceptableSuits(h, b);
    }
  }

  /** A well-formed request whose system and direct buffers are the same byte of the frame. */
  function OverlappingByte(i: nat): byte {
    if i == 0 then ABI_VERSION
    else if i == 3 || i == 16 || i == 24 || i == 105 || i == 112 || i == 117 || i == 120 then 1
    else 0
  }

  function Overlapping(): (h: Request)
    ensures IsOverlapping(h)
  {
    seq(HEADER_LEN, (i: nat) => OverlappingByte(i))
  }

  predicate IsOverlapping(h: Request) {
    forall i :: 0 <= i < HEADER_LEN ==> h[i] == OverlappingByte(i)
  }

  lemma {:induction false} FieldZero(h: Bytes, at: nat, width: nat)
    requires at + width <= |h| && forall k :: at <= k < at + width ==> h[k] == 0
    ensures Field(h, at, width) == 0
    decreases width
  {
    if width > 0 {
      FieldZero(h, at + 1, width - 1);
    }
  }

  lemma FieldSmall(h: Bytes, at: nat, width: nat)
    requires width >= 2 && at + width <= |h| && forall k :: at + 2 <= k < at + width ==> h[k] == 0
    ensures Field(h, at, width) == h[at] as int + 256 * (h[at + 1] as int)
  {
    FieldZero(h, at + 2, width - 2);
    assert Field(h, at + 1, width - 1) == h[at + 1] as int + 256 * Field(h, at + 2, width - 2);
  }

  function OverlappingValue(f: HeaderField): nat {
    match f
    case AbiVersion => ABI_VERSION
    case AbiSize => HEADER_LEN
    case TargetDomain => 1
    case TargetCookie => 1
    case BufferOffset => HEADER_LEN
    case BufferLen => 1
    case DirectOffset => HEADER_LEN
    case DirectLen => 1
    case _ => 0
  }

  lemma OverlappingField(h: Request, f: HeaderField)
    requires IsOverlapping(h)
    ensures Get(h, f) == OverlappingValue(f)
  {
    var at, width := Place(f).0, Place(f).1;
    if f == MajorCode {
      FieldZero(h, at, width);
    } else {
      assert OverlappingByte(at) as int + 256 * (OverlappingByte(at + 1) as int) == OverlappingValue(f);
      FieldSmall(h, at, width);
    }
  }

  ghost predicate HasOverlappingFields(h: Request) {
    forall f {:trigger OverlappingValue(f)} :: Get(h, f) == OverlappingValue(f)
  }

  lemma OverlappingHeader(h: Request)
    requires HasOverlappingFields(h)
    ensures HeaderOk(h)
  {
    assert OverlappingValue(AbiVersion) == ABI_VERSION && OverlappingValue(AbiSize) == HEADER_LEN;
    assert OverlappingValue(TargetDomain) == 1 && OverlappingValue(TargetCookie) == 1;
    assert OverlappingValue(ProviderDomain) == 0 && OverlappingValue(ProviderCookie) == 0;
  }

  lemma OverlappingOutputs(h: Request)
    requires HasOverlappingFields(h)
    ensures System(h) == Segment(HEADER_LEN, 1) && Direct(h) == Segment(HEADER_LEN, 1)
  {
    assert OverlappingValue(BufferOffset) == HEADER_LEN && OverlappingValue(BufferLen) == 1;
    assert OverlappingValue(DirectOffset) == HEADER_LEN && OverlappingValue(DirectLen) == 1;
  }

  lemma OverlappingRest(h: Request)
    requires HasOverlappingFields(h)
    ensures Type3(h) == Segment(0, 0) && User(h) == Segment(0, 0)
  {
    assert OverlappingValue(Type3Offset) == 0 && OverlappingValue(Type3Len) == 0;
    assert OverlappingValue(UserOffset) == 0 && OverlappingValue(UserLen) == 0;
  }

  lemma OneByteStageable(h: Request)
    requires System(h) == Direct(h) == Segment(HEADER_LEN, 1) && Type3(h) == User(h) == Segment(0, 0)
    ensures Stageable(h) && !Harmless(PlanOf(h))
  {
    OneByteStaged(h);
  }

  lemma OneByteStaged(h: Request)
    requires System(h) == Direct(h) == Segment(HEADER_LEN, 1) && Type3(h) == User(h) == Segment(0, 0)
    ensures StagedLen(h) == Some(HEADER_LEN + 1)
  {
    assert EndOf(h, 1) == Some(HEADER_LEN + 1);
    assert EndOf(h, 2) == Some(HEADER_LEN + 1);
    assert EndOf(h, 3) == Some(HEADER_LEN + 1);
  }

  lemma OverlappingRequest() returns (h: Request)
    ensures HasOverlappingFields(h)
  {
    h := Overlapping();
    forall f ensures Get(h, f) == OverlappingValue(f) {
      OverlappingField(h, f);
    }
  }

  /** A request `dispatch` accepts and the peer finds well-formed, yet whose caller gets back the wrong bytes. */
  lemma WrongDelivery(f: Bytes) returns (h: Request, b: Buffers)
    requires |f| == FRAME_LEN
    ensures HeaderOk(h) && Acceptable(h, b) && Returned(f, h, b) != Delivered(h, b)
  {
    h := OverlappingRequest();
    OverlappingHeader(h);
    OverlappingOutputs(h);
    OverlappingRest(h);
    OneByteStageable(h);
    DispatchExactly(f, h);
    b :| Acceptable(h, b) && Returned(f, h, b) != Delivered(h, b);
  }

  datatype Outcome = Failed(status: Status) | Completed(status: Status, information: nat, buffers: Buffers)

  class SurtPeerTransport {
    /** The frame shared with the peer. */
    const frame: array<byte>
    var nextId: nat

    constructor (shared: array<byte>)
      requires shared.Length == FRAME_LEN
      ensures frame == shared && nextId == 1
    {
      frame, nextId := shared, 1;
    }

    method Stage(h: Request, b: Buffers)
      requires frame.Length == FRAME_LEN && Acceptable(h, b)
      modifies frame
      ensures frame[..] == Staged(old(frame[..]), h, b)
    {
      AcceptedSuits(h, b);
      WriteSegment(frame, 0, h);
      StageSegments(PlanOf(h), b);
    }

    method StageSegments(p: Plan, b: Buffers)
      requires frame.Length == FRAME_LEN && p.InBounds() && Suits(p, b)
      modifies frame
      ensures frame[..] == StagedBy(old(frame[..]), p, b)
    {
      SuitsFit(p, b);
      ghost var f, segs, datas := frame[..], p.Segs(), Datas(b);
      WriteSegment(frame, p.system.offset, b.system);
      assert frame[..] == StagedTo(f, segs, datas, 1);
      WriteSegment(frame, p.direct.offset, DataOf(b.direct));
      assert frame[..] == StagedTo(f, segs, datas, 2);
      WriteSegment(frame, p.type3.offset, DataOf(b.type3));
      assert frame[..] == StagedTo(f, segs, datas, 3);
      WriteSegment(frame, p.user.offset, DataOf(b.user));
    }

    method ReadBack(h: Request, b: Buffers) returns (r: Buffers)
      requires frame.Length == FRAME_LEN && BoundsOk(h) && PlanOf(h).InBounds()
      ensures r == Collected(frame[..], PlanOf(h), b)
    {
      var system := ReadSegment(frame, System(h));
      r := b.(system := system);
      if b.direct.Some? {
        var direct := ReadSegment(frame, Direct(h));
        r := r.(direct := Some(direct));
      }
      if b.user.Some? {
        var user := ReadSegment(frame, User(h));
        r := r.(user := Some(user));
      }
    }

    /** One request through the peer: refused without a trace, or answered with its header intact and, unless
        its segments overlap harmfully, exactly the buffers it should deliver. */
    method Dispatch(h: Request, b: Buffers) returns (o: Outcome)
      requires frame.Length == FRAME_LEN
      modifies this, frame
      ensures !Acceptable(h, b) ==>
                o == Failed(InvalidParameter) && frame[..] == old(frame[..]) && nextId == old(nextId)
      ensures Acceptable(h, b) ==> o.Completed? && nextId == old(nextId) + 1 && frame[..HEADER_LEN] == h
      ensures Acceptable(h, b) ==> (o.status, o.information) == Answer(h)
      ensures Acceptable(h, b) ==> o.buffers == Returned(old(frame[..]), h, b)
      ensures Acceptable(h, b) && Harmless(PlanOf(h)) ==> o.buffers == Delivered(h, b)
    {
      var total := StagedLen(h);
      if total.None? || total.value > FRAME_LEN {
        return Failed(InvalidParameter);
      }
      if !SegmentMatches(System(h), |b.system|) || !SegmentMatches(Direct(h), |DataOf(b.direct)|)
         || !SegmentMatches(Type3(h), |DataOf(b.type3)|) || !SegmentMatches(User(h), |DataOf(b.user)|) {
        return Failed(InvalidParameter);
      }
      o := Exchange(h, b, total.value);
      nextId := nextId + 1;
    }

    method Exchange(h: Request, b: Buffers, total: nat) returns (o: Outcome)
      requires frame.Length == FRAME_LEN && Acceptable(h, b) && total == StagedLen(h).value
      modifies frame
      ensures o.Completed? && frame[..HEADER_LEN] == h && (o.status, o.information) == Answer(h)
      ensures o.buffers == Returned(old(frame[..]), h, b) && (Harmless(PlanOf(h)) ==> o.buffers == Delivered(h, b))
    {
      AcceptedIsBounded(h, b);
      BoundsAgree(h);
      ghost var f := frame[..];
      RoundTrip(f, h, b);
      HeaderStaged(f, h, b);
      Stage(h, b);
      assert frame[..HEADER_LEN] == frame[..][..HEADER_LEN];
      var status, information := Handle(frame, total);
      assert frame[..HEADER_LEN] == frame[..][..HEADER_LEN];
      var r := ReadBack(h, b);
      o := Completed(status, information, r);
    }
  }

  /** The peer's answer to a request within bounds. */
  ghost function Answer(h: Request): (Status, nat) {
    if !HeaderOk(h) then (InvalidParameter, 0)
    else if Major(h) == IRP_MJ_READ then (Success, Min(8, System(h).len))
    else if Major(h) == IRP_MJ_WRITE then (Success, System(h).len)
    else if IsIoctl(h) then (Success, IoctlCount(h))
    else if Major(h) in {IRP_MJ_CREATE, IRP_MJ_CLEANUP, IRP_MJ_CLOSE, IRP_MJ_FLUSH_BUFFERS} then (Success, 0)
    else (InvalidDeviceRequest, 0)
  }
}
