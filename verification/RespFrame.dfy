/**
 * RESP reply frames and their wire form.
 *
 * `Emit` is the meaning of encoding: one recursive definition covering the
 * protocol-neutral encoder and both negotiated versions. The encoders that
 * append to a buffer, the length predictor and the streaming encoder are all
 * proved against it.
 */
module RespFrame {
  import opened Base
  import opened Decimal

  datatype Frame =
    | SimpleString(text: Bytes)
    | Error(text: Bytes)
    | Integer(value: i64)
    | Bulk(payload: Option<Bytes>)
    | Array(items: seq<Frame>)
    | Push(items: seq<Frame>)
    | Map(entries: seq<Entry>)
    | NullArray
    | Null
    | Sequence(items: seq<Frame>)
    | Versioned(version: i64, frame: Frame)

  datatype Entry = Entry(key: Frame, val: Frame)

  /** `Raw` is the protocol-neutral codec; the other two are negotiated versions. */
  datatype Wire = Raw | Resp2 | Resp3

  type Version = w: Wire | w != Raw witness Resp2

  function VersionOf(protocol: int): Version {
    if protocol >= 3 then Resp3 else Resp2
  }

  const MAX_ARRAY_ELEMENTS: nat := 1024 * 1024
  const MAX_MAP_ENTRIES: nat := 512 * 1024
  const MAX_BULK_LENGTH: nat := 512 * 1024 * 1024
  const MAX_INLINE_LENGTH: nat := 64 * 1024
  const MAX_NESTING_DEPTH: nat := 128

  const STAR: byte := 42
  const PERCENT: byte := 37
  const DOLLAR: byte := 36
  const COLON: byte := 58
  const UNDERSCORE: byte := 95
  const GREATER: byte := 62

  const NULL_BULK: Bytes := [36, 45, 49, 13, 10]
  const NULL_ARRAY: Bytes := [42, 45, 49, 13, 10]
  const NULL: Bytes := [95, 13, 10]

  predicate IsBreak(b: byte) {
    b == CR || b == LF
  }

  predicate HasBreak(s: Bytes) {
    exists i :: 0 <= i < |s| && IsBreak(s[i])
  }

  /** A line payload with every CR and LF replaced by a space. */
  function CleanLine(s: Bytes): (r: Bytes)
    ensures |r| == |s| && !HasBreak(r)
    ensures !HasBreak(s) ==> r == s
    ensures forall i {:trigger r[i]} :: 0 <= i < |s| ==>
      (IsBreak(s[i]) ==> r[i] == 32) && (!IsBreak(s[i]) ==> r[i] == s[i])
  {
    seq(|s|, i requires 0 <= i < |s| => if IsBreak(s[i]) then 32 else s[i])
  }

  const USIZE_MAX: nat := 0xFFFF_FFFF_FFFF_FFFF

  /** A count as a saturating machine word sees it. */
  function Saturate(n: nat): nat {
    if n <= USIZE_MAX then n else USIZE_MAX
  }

  /** The header announcing `n` elements or bytes, a machine word. */
  function Header(marker: byte, n: nat): (h: Bytes)
    ensures |h| >= 4 && h[0] == marker
  {
    [marker] + Digits(Saturate(n)) + CRLF
  }

  function MapHeader(n: nat, w: Wire): Bytes {
    if w == Resp2 then Header(STAR, 2 * n) else Header(PERCENT, n)
  }

  function PushMarker(w: Wire): byte {
    if w == Resp2 then STAR else GREATER
  }

  function Emit(f: Frame, w: Wire): Bytes
    decreases f, 1
  {
    match f
    case SimpleString(text) => [PLUS] + CleanLine(text) + CRLF
    case Error(text) => [MINUS] + CleanLine(text) + CRLF
    case Integer(n) => [COLON] + Print(n) + CRLF
    case Bulk(None) => if w == Resp3 then NULL else NULL_BULK
    case Bulk(Some(p)) => Header(DOLLAR, |p|) + p + CRLF
    case Array(items) => Header(STAR, |items|) + EmitAll(items, w)
    case Push(items) => Header(PushMarker(w), |items|) + EmitAll(items, w)
    case Map(entries) => MapHeader(|entries|, w) + EmitEntries(entries, w)
    case NullArray => if w == Resp3 then NULL else NULL_ARRAY
    case Null => if w == Resp2 then NULL_BULK else NULL
    case Sequence(items) => EmitAll(items, w)
    case Versioned(v, g) => Emit(g, VersionOf(v))
  }

  function EmitAll(items: seq<Frame>, w: Wire): Bytes
    decreases items, 0
  {
    if items == [] then [] else Emit(items[0], w) + EmitAll(items[1..], w)
  }

  function EmitEntries(entries: seq<Entry>, w: Wire): Bytes
    decreases entries, 0
  {
    if entries == [] then []
    else
      assert entries[0].key < entries[0] && entries[0].val < entries[0];
      Emit(entries[0].key, w) + Emit(entries[0].val, w) + EmitEntries(entries[1..], w)
  }

  lemma {:induction false} EmitAllAppend(a: seq<Frame>, b: seq<Frame>, w: Wire)
    ensures EmitAll(a + b, w) == EmitAll(a, w) + EmitAll(b, w)
    decreases |a|
  {
    if a == [] {
      assert a + b == b;
    } else {
      assert (a + b)[1..] == a[1..] + b;
      EmitAllAppend(a[1..], b, w);
      assert EmitAll(a + b, w) == Emit(a[0], w) + (EmitAll(a[1..], w) + EmitAll(b, w));
    }
  }

  lemma {:induction false} EmitEntriesAppend(a: seq<Entry>, b: seq<Entry>, w: Wire)
    ensures EmitEntries(a + b, w) == EmitEntries(a, w) + EmitEntries(b, w)
    decreases |a|
  {
    if a == [] {
      assert a + b == b;
    } else {
      assert (a + b)[1..] == a[1..] + b;
      EmitEntriesAppend(a[1..], b, w);
      var head := Emit(a[0].key, w) + Emit(a[0].val, w);
      assert EmitEntries(a + b, w) == head + (EmitEntries(a[1..], w) + EmitEntries(b, w));
    }
  }

  /** One more item of a prefix, as the encoders' loops need it. */
  lemma EmitAllStep(items: seq<Frame>, i: nat, w: Wire)
    requires i < |items|
    ensures EmitAll(items[..i + 1], w) == EmitAll(items[..i], w) + Emit(items[i], w)
  {
    assert items[..i + 1] == items[..i] + [items[i]];
    EmitAllAppend(items[..i], [items[i]], w);
    assert EmitAll([items[i]], w) == Emit(items[i], w) + EmitAll([], w);
  }

  lemma EmitEntriesStep(entries: seq<Entry>, i: nat, w: Wire)
    requires i < |entries|
    ensures EmitEntries(entries[..i + 1], w)
         == EmitEntries(entries[..i], w) + Emit(entries[i].key, w) + Emit(entries[i].val, w)
  {
    assert entries[..i + 1] == entries[..i] + [entries[i]];
    EmitEntriesAppend(entries[..i], [entries[i]], w);
    assert [entries[i]][1..] == [];
    assert EmitEntries([entries[i]], w) == Emit(entries[i].key, w) + Emit(entries[i].val, w) + EmitEntries([], w);
  }

  // ---- what the parser can give back ----------------------------------------

  /**
   * The frames with a wire form the parser reads back, seen from nesting level
   * `depth`. A null array spends a level just as an array does.
   */
  predicate Encodable(f: Frame, depth: nat)
    decreases f, 1
  {
    match f
    case SimpleString(text) => !HasBreak(text)
    case Error(text) => !HasBreak(text)
    case Integer(_) => true
    case Bulk(None) => true
    case Bulk(Some(p)) => |p| <= MAX_BULK_LENGTH
    case Array(items) =>
      depth < MAX_NESTING_DEPTH && |items| <= MAX_ARRAY_ELEMENTS && AllEncodable(items, depth + 1)
    case Map(entries) =>
      depth < MAX_NESTING_DEPTH && |entries| <= MAX_MAP_ENTRIES && EntriesEncodable(entries, depth + 1)
    case NullArray => depth < MAX_NESTING_DEPTH
    case Null => true
    case Push(_) => false
    case Sequence(_) => false
    case Versioned(_, _) => false
  }

  predicate AllEncodable(items: seq<Frame>, depth: nat)
    decreases items, 0
  {
    items == [] || (Encodable(items[0], depth) && AllEncodable(items[1..], depth))
  }

  predicate EntriesEncodable(entries: seq<Entry>, depth: nat)
    decreases entries, 0
  {
    if entries == [] then true
    else
      assert entries[0].key < entries[0] && entries[0].val < entries[0];
      Encodable(entries[0].key, depth) && Encodable(entries[0].val, depth)
      && EntriesEncodable(entries[1..], depth)
  }

  // ---- projection to a negotiated version -----------------------------------

  /** The frame a client of wire `w` is shown. */
  function Project(f: Frame, w: Wire): Frame
    decreases f, 1
  {
    match f
    case SimpleString(text) => SimpleString(CleanLine(text))
    case Error(text) => Error(CleanLine(text))
    case Integer(_) => f
    case Bulk(None) => if w == Resp3 then Null else f
    case Bulk(Some(_)) => f
    case Array(items) => Array(ProjectAll(items, w))
    case Push(items) => if w == Resp2 then Array(ProjectAll(items, w)) else Push(ProjectAll(items, w))
    case Map(entries) =>
      if w == Resp2 then Array(ProjectFlat(entries, w)) else Map(ProjectEntries(entries, w))
    case NullArray => if w == Resp3 then Null else f
    case Null => if w == Resp2 then Bulk(None) else f
    case Sequence(items) => Sequence(ProjectAll(items, w))
    case Versioned(v, g) => Project(g, VersionOf(v))
  }

  function ProjectAll(items: seq<Frame>, w: Wire): (r: seq<Frame>)
    ensures |r| == |items|
    decreases items, 0
  {
    if items == [] then [] else [Project(items[0], w)] + ProjectAll(items[1..], w)
  }

  function ProjectEntries(entries: seq<Entry>, w: Wire): (r: seq<Entry>)
    ensures |r| == |entries|
    decreases entries, 0
  {
    if entries == [] then []
    else
      assert entries[0].key < entries[0] && entries[0].val < entries[0];
      [Entry(Project(entries[0].key, w), Project(entries[0].val, w))] + ProjectEntries(entries[1..], w)
  }

  /** Map entries as one flat list, key before value, in order. */
  function ProjectFlat(entries: seq<Entry>, w: Wire): (r: seq<Frame>)
    ensures |r| == 2 * |entries|
    decreases entries, 0
  {
    if entries == [] then []
    else
      assert entries[0].key < entries[0] && entries[0].val < entries[0];
      [Project(entries[0].key, w), Project(entries[0].val, w)] + ProjectFlat(entries[1..], w)
  }

  /** Encoding for a version is the protocol-neutral encoding of the projected frame, for every frame. */
  lemma {:induction false} ProjectionKeepsBytes(f: Frame, w: Wire)
    ensures Emit(f, w) == Emit(Project(f, w), Raw)
    decreases f, 1
  {
    hide Header, CleanLine, HasBreak, Print;
    match f
    case Array(items) => ProjectAllKeepsBytes(items, w);
    case Push(items) => ProjectAllKeepsBytes(items, w);
    case Sequence(items) => ProjectAllKeepsBytes(items, w);
    case Map(entries) => ProjectEntriesKeepBytes(entries, w);
    case Versioned(v, g) => ProjectionKeepsBytes(g, VersionOf(v));
    case _ =>
  }

  lemma {:induction false} ProjectAllKeepsBytes(items: seq<Frame>, w: Wire)
    ensures EmitAll(items, w) == EmitAll(ProjectAll(items, w), Raw)
    decreases items, 0
  {
    if items != [] {
      ProjectionKeepsBytes(items[0], w);
      ProjectAllKeepsBytes(items[1..], w);
      assert ProjectAll(items, w)[1..] == ProjectAll(items[1..], w);
    }
  }

  lemma EmitPair(k: Frame, v: Frame, tail: seq<Frame>, w: Wire)
    ensures EmitAll([k, v] + tail, w) == Emit(k, w) + Emit(v, w) + EmitAll(tail, w)
  {
    hide Emit;
    assert ([k, v] + tail)[1..] == [v] + tail && ([v] + tail)[1..] == tail;
    ConcatAssoc(Emit(k, w), Emit(v, w), EmitAll(tail, w));
  }

  lemma {:induction false} ProjectEntriesKeepBytes(entries: seq<Entry>, w: Wire)
    ensures EmitEntries(entries, w) == EmitEntries(ProjectEntries(entries, w), Raw)
    ensures EmitEntries(entries, w) == EmitAll(ProjectFlat(entries, w), Raw)
    decreases entries, 0
  {
    if entries != [] {
      assert entries[0].key < entries[0] && entries[0].val < entries[0];
      hide Emit, Project;
      var k, v := Project(entries[0].key, w), Project(entries[0].val, w);
      ProjectionKeepsBytes(entries[0].key, w);
      ProjectionKeepsBytes(entries[0].val, w);
      ProjectEntriesKeepBytes(entries[1..], w);
      assert ProjectEntries(entries, w)[1..] == ProjectEntries(entries[1..], w);
      EmitPair(k, v, ProjectFlat(entries[1..], w), Raw);
    }
  }
}
