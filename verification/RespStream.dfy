/**
 * The streaming encoder: an explicit stack of unfinished work that yields a
 * reply as bounded pieces. It refines the recursive encoder, its pieces are
 * never empty, and its stack depends on the reply's height only.
 */
module RespStream {
  import opened Base
  import opened RespFrame
  import opened RespEncode

  /** Work left to encode; an iterator is the suffix it has not produced yet. */
  datatype Pending =
    | One(frame: Frame, version: Version)
    | Items(items: seq<Frame>, version: Version)
    | Entries(entries: seq<Entry>, version: Version)

  function WorkBytes(p: Pending): Bytes {
    match p
    case One(f, v) => Emit(f, v)
    case Items(items, v) => EmitAll(items, v)
    case Entries(entries, v) => EmitEntries(entries, v)
  }

  /** The bytes a stack stands for, innermost (last) work first. */
  function StackBytes(stack: seq<Pending>): Bytes {
    if stack == [] then [] else WorkBytes(stack[|stack| - 1]) + StackBytes(stack[..|stack| - 1])
  }

  // ---- height and size of frames --------------------------------------------

  function Max(a: nat, b: nat): nat {
    if a < b then b else a
  }

  function Height(f: Frame): nat
    decreases f, 1
  {
    match f
    case Array(items) => 1 + HeightAll(items)
    case Push(items) => 1 + HeightAll(items)
    case Sequence(items) => 1 + HeightAll(items)
    case Map(entries) => 1 + HeightEntries(entries)
    case Versioned(_, g) => 1 + Height(g)
    case _ => 0
  }

  function HeightAll(items: seq<Frame>): nat
    decreases items, 0
  {
    if items == [] then 0 else Max(Height(items[0]), HeightAll(items[1..]))
  }

  function HeightEntries(entries: seq<Entry>): nat
    decreases entries, 0
  {
    if entries == [] then 0
    else
      assert entries[0].key < entries[0] && entries[0].val < entries[0];
      Max(Max(Height(entries[0].key), Height(entries[0].val)), HeightEntries(entries[1..]))
  }

  /** Number of stack operations a frame costs. */
  function Cost(f: Frame): (n: nat)
    ensures n >= 1
    decreases f, 1
  {
    match f
    case Array(items) => 2 + CostAll(items)
    case Push(items) => 2 + CostAll(items)
    case Sequence(items) => 2 + CostAll(items)
    case Map(entries) => 2 + CostEntries(entries)
    case Versioned(_, g) => 1 + Cost(g)
    case _ => 1
  }

  function CostAll(items: seq<Frame>): nat
    decreases items, 0
  {
    if items == [] then 0 else Cost(items[0]) + CostAll(items[1..])
  }

  function CostEntries(entries: seq<Entry>): nat
    decreases entries, 0
  {
    if entries == [] then 0
    else
      assert entries[0].key < entries[0] && entries[0].val < entries[0];
      Cost(entries[0].key) + Cost(entries[0].val) + CostEntries(entries[1..])
  }

  function WorkCost(p: Pending): nat {
    match p
    case One(f, _) => Cost(f)
    case Items(items, _) => 1 + CostAll(items)
    case Entries(entries, _) => 1 + CostEntries(entries)
  }

  function StackCost(stack: seq<Pending>): nat {
    if stack == [] then 0 else WorkCost(stack[|stack| - 1]) + StackCost(stack[..|stack| - 1])
  }

  /** Slots above its own position that a piece of work can still need, itself included. */
  function Room(p: Pending): nat {
    match p
    case One(f, _) => 1 + 2 * Height(f)
    case Items(items, _) => 1 + 2 * HeightAll(items)
    case Entries(entries, _) => 2 + 2 * HeightEntries(entries)
  }

  ghost predicate Fits(stack: seq<Pending>, bound: nat) {
    forall i :: 0 <= i < |stack| ==> i + Room(stack[i]) <= bound
  }

  lemma PushBytes(stack: seq<Pending>, p: Pending)
    ensures StackBytes(stack + [p]) == WorkBytes(p) + StackBytes(stack)
    ensures StackCost(stack + [p]) == WorkCost(p) + StackCost(stack)
  {
    assert (stack + [p])[..|stack|] == stack;
  }

  // ---- one expansion step, as a value ---------------------------------------

  /** What a frame writes itself, before any child. */
  function OwnBytes(f: Frame, v: Version): Bytes {
    match f
    case Array(items) => Header(STAR, |items|)
    case Push(items) => Header(PushMarker(v), |items|)
    case Map(entries) => MapHeader(|entries|, v)
    case Sequence(_) => []
    case Versioned(_, _) => []
    case _ => Emit(f, v)
  }

  /** The work a frame leaves for its children. */
  function ChildWork(f: Frame, v: Version): seq<Pending> {
    match f
    case Array(items) => [Items(items, v)]
    case Push(items) => [Items(items, v)]
    case Map(entries) => [Entries(entries, v)]
    case Sequence(items) => [Items(items, v)]
    case Versioned(p, g) => [One(g, VersionOf(p))]
    case _ => []
  }

  /** A frame is its own bytes followed by those of its children. */
  lemma OwnThenChildren(f: Frame, v: Version)
    ensures var work := ChildWork(f, v);
      if work == [] then OwnBytes(f, v) == Emit(f, v)
      else work == [work[0]] && OwnBytes(f, v) + WorkBytes(work[0]) == Emit(f, v) && WorkCost(work[0]) < Cost(f)
  {
    hide Header;
    match f
    case Sequence(items) => assert [] + EmitAll(items, v) == EmitAll(items, v);
    case Versioned(p, g) => assert [] + Emit(g, VersionOf(p)) == Emit(g, VersionOf(p));
    case _ =>
  }

  lemma ExpandKeepsBytes(f: Frame, v: Version, stack: seq<Pending>)
    ensures OwnBytes(f, v) + StackBytes(stack + ChildWork(f, v)) == Emit(f, v) + StackBytes(stack)
    ensures StackCost(stack + ChildWork(f, v)) < Cost(f) + StackCost(stack)
  {
    hide OwnBytes, Emit, ChildWork, WorkBytes, WorkCost, Cost;
    var work := ChildWork(f, v);
    OwnThenChildren(f, v);
    if work == [] {
      assert stack + work == stack;
    } else {
      PushBytes(stack, work[0]);
      ConcatAssoc(OwnBytes(f, v), WorkBytes(work[0]), StackBytes(stack));
    }
  }

  lemma ExpandFits(f: Frame, v: Version, stack: seq<Pending>, bound: nat)
    requires Fits(stack, bound) && |stack| + 2 * Height(f) <= bound
    ensures Fits(stack + ChildWork(f, v), bound)
  {
  }

  /** Popping the innermost work: the frame to expand next, if any, and the stack under its children. */
  function PopFrame(stack: seq<Pending>): (Option<Todo>, seq<Pending>)
    requires stack != []
  {
    var rest := stack[..|stack| - 1];
    match stack[|stack| - 1]
    case One(f, v) => (Some(One(f, v)), rest)
    case Items(items, v) =>
      if items == [] then (None, rest)
      else (Some(One(items[0], v)), rest + [Items(items[1..], v)])
    case Entries(entries, v) =>
      if entries == [] then (None, rest)
      else (Some(One(entries[0].key, v)), rest + [Entries(entries[1..], v)] + [One(entries[0].val, v)])
  }

  type Todo = p: Pending | p.One? witness One(Null, Resp2)

  lemma PopKeepsBytes(stack: seq<Pending>)
    requires stack != []
    ensures var (next, under) := PopFrame(stack);
      match next
      case None => StackBytes(under) == StackBytes(stack) && StackCost(under) < StackCost(stack)
      case Some(p) => Emit(p.frame, p.version) + StackBytes(under) == StackBytes(stack)
                      && Cost(p.frame) + StackCost(under) <= StackCost(stack)
  {
    var rest := stack[..|stack| - 1];
    match stack[|stack| - 1]
    case One(f, v) =>
    case Items(items, v) =>
      if items != [] {
        PushBytes(rest, Items(items[1..], v));
        ConcatAssoc(Emit(items[0], v), EmitAll(items[1..], v), StackBytes(rest));
      }
    case Entries(entries, v) =>
      if entries != [] {
        var tail := rest + [Entries(entries[1..], v)];
        PushBytes(rest, Entries(entries[1..], v));
        PushBytes(tail, One(entries[0].val, v));
        EntryBytes(Emit(entries[0].key, v), Emit(entries[0].val, v), EmitEntries(entries[1..], v), StackBytes(rest));
      }
  }

  lemma EntryBytes(k: Bytes, v: Bytes, tail: Bytes, rest: Bytes)
    ensures k + (v + (tail + rest)) == k + v + tail + rest
  {
  }

  lemma PopFits(stack: seq<Pending>, bound: nat)
    requires stack != [] && Fits(stack, bound)
    ensures var (next, under) := PopFrame(stack);
      Fits(under, bound) && (next.Some? ==> |under| + 2 * Height(next.value.frame) <= bound)
  {
    assert |stack| - 1 + Room(stack[|stack| - 1]) <= bound;
  }

  lemma ReadyFront(ready: seq<Bytes>, buf: Bytes, stack: Bytes)
    requires ready != []
    ensures Flatten(ready) + buf + stack == ready[0] + (Flatten(ready[1..]) + buf + stack)
  {
    EntryBytes(ready[0], Flatten(ready[1..]), buf, stack);
    ConcatAssoc(Flatten(ready[1..]), buf, stack);
  }

  lemma BufferFront(buf: Bytes, stack: Bytes)
    ensures Flatten([]) + buf + stack == buf + (Flatten([]) + [] + stack)
  {
    assert Flatten([]) + buf == buf;
    assert Flatten([]) + [] + stack == stack;
  }

  // ---- how long a piece can get ---------------------------------------------

  /** A bulk string long enough to leave uncopied. */
  predicate ZeroCopied(f: Frame, zeroCopy: nat) {
    f.Bulk? && f.payload.Some? && |f.payload.value| >= zeroCopy
  }

  /** Bytes one frame adds to the buffer at most; a payload that leaves uncopied adds its header alone. */
  function OwnWidth(f: Frame, v: Version, zeroCopy: nat): nat {
    if ZeroCopied(f, zeroCopy) then |Header(DOLLAR, |f.payload.value|)| else |OwnBytes(f, v)|
  }

  /** The widest frame of a reply. */
  function Width(f: Frame, v: Version, zeroCopy: nat): nat
    decreases f, 1
  {
    Max(OwnWidth(f, v, zeroCopy), match f
        case Array(items) => WidthAll(items, v, zeroCopy)
        case Push(items) => WidthAll(items, v, zeroCopy)
        case Sequence(items) => WidthAll(items, v, zeroCopy)
        case Map(entries) => WidthEntries(entries, v, zeroCopy)
        case Versioned(p, g) => Width(g, VersionOf(p), zeroCopy)
        case _ => 0)
  }

  function WidthAll(items: seq<Frame>, v: Version, zeroCopy: nat): nat
    decreases items, 0
  {
    if items == [] then 0 else Max(Width(items[0], v, zeroCopy), WidthAll(items[1..], v, zeroCopy))
  }

  function WidthEntries(entries: seq<Entry>, v: Version, zeroCopy: nat): nat
    decreases entries, 0
  {
    if entries == [] then 0
    else
      assert entries[0].key < entries[0] && entries[0].val < entries[0];
      Max(Max(Width(entries[0].key, v, zeroCopy), Width(entries[0].val, v, zeroCopy)),
          WidthEntries(entries[1..], v, zeroCopy))
  }

  /** The payloads of a reply that leave uncopied. */
  function Payloads(f: Frame, zeroCopy: nat): (r: set<Bytes>)
    ensures forall p :: p in r ==> |p| >= zeroCopy
    decreases f, 1
  {
    match f
    case Bulk(Some(p)) => if |p| >= zeroCopy then {p} else {}
    case Array(items) => PayloadsAll(items, zeroCopy)
    case Push(items) => PayloadsAll(items, zeroCopy)
    case Sequence(items) => PayloadsAll(items, zeroCopy)
    case Map(entries) => PayloadsEntries(entries, zeroCopy)
    case Versioned(_, g) => Payloads(g, zeroCopy)
    case _ => {}
  }

  function PayloadsAll(items: seq<Frame>, zeroCopy: nat): (r: set<Bytes>)
    ensures forall p :: p in r ==> |p| >= zeroCopy
    decreases items, 0
  {
    if items == [] then {} else Payloads(items[0], zeroCopy) + PayloadsAll(items[1..], zeroCopy)
  }

  function PayloadsEntries(entries: seq<Entry>, zeroCopy: nat): (r: set<Bytes>)
    ensures forall p :: p in r ==> |p| >= zeroCopy
    decreases entries, 0
  {
    if entries == [] then {}
    else
      assert entries[0].key < entries[0] && entries[0].val < entries[0];
      Payloads(entries[0].key, zeroCopy) + Payloads(entries[0].val, zeroCopy)
      + PayloadsEntries(entries[1..], zeroCopy)
  }

  /** A bound on the frames of a reply and the payloads among them that leave uncopied. */
  datatype Shape = Shape(zeroCopy: nat, width: nat, payloads: set<Bytes>)

  predicate Allows(shape: Shape, p: Pending) {
    match p
    case One(f, v) => AllowsFrame(shape, f, v)
    case Items(items, v) =>
      WidthAll(items, v, shape.zeroCopy) <= shape.width && PayloadsAll(items, shape.zeroCopy) <= shape.payloads
    case Entries(entries, v) =>
      WidthEntries(entries, v, shape.zeroCopy) <= shape.width
      && PayloadsEntries(entries, shape.zeroCopy) <= shape.payloads
  }

  predicate AllowsFrame(shape: Shape, f: Frame, v: Version) {
    Width(f, v, shape.zeroCopy) <= shape.width && Payloads(f, shape.zeroCopy) <= shape.payloads
  }

  ghost predicate AllowsAll(shape: Shape, stack: seq<Pending>) {
    forall i :: 0 <= i < |stack| ==> Allows(shape, stack[i])
  }

  lemma ExpandAllowed(shape: Shape, f: Frame, v: Version, stack: seq<Pending>)
    requires AllowsAll(shape, stack) && AllowsFrame(shape, f, v)
    ensures AllowsAll(shape, stack + ChildWork(f, v))
  {
    hide OwnWidth;
  }

  lemma PopAllowed(shape: Shape, stack: seq<Pending>)
    requires stack != [] && AllowsAll(shape, stack)
    ensures var (next, under) := PopFrame(stack);
      AllowsAll(shape, under) && (next.Some? ==> AllowsFrame(shape, next.value.frame, next.value.version))
  {
    hide OwnWidth;
    assert Allows(shape, stack[|stack| - 1]);
  }

  lemma WidthCovers(f: Frame, v: Version, zeroCopy: nat)
    ensures OwnWidth(f, v, zeroCopy) <= Width(f, v, zeroCopy)
    ensures ZeroCopied(f, zeroCopy) ==> f.payload.value in Payloads(f, zeroCopy)
  {
  }

  class ReplySegments {
    var pending: seq<Pending>
    var ready: seq<Bytes>
    var buf: Bytes
    const chunkBytes: nat
    const zeroCopyMin: nat
    ghost const bound: nat
    ghost const shape: Shape

    ghost predicate Valid()
      reads this
    {
      && chunkBytes >= 1 && zeroCopyMin >= 1 && shape.zeroCopy == zeroCopyMin
      && (forall i :: 0 <= i < |ready| ==> ready[i] != [])
      && Fits(pending, bound) && AllowsAll(shape, pending)
    }

    /** A piece is shorter than a chunk and one frame together, unless it is a payload that leaves uncopied. */
    ghost predicate Piece(piece: Bytes) {
      |piece| < chunkBytes + shape.width || piece in shape.payloads
    }

    /** At most one payload and what precedes it are held beside the buffer, and the buffer stays short. */
    ghost predicate Bounded()
      reads this
    {
      && |ready| <= 2 && (forall i :: 0 <= i < |ready| ==> Piece(ready[i]))
      && |buf| < chunkBytes + shape.width
    }

    /** Bytes written but not yet handed out. */
    ghost function Written(): Bytes
      reads this
    {
      Flatten(ready) + buf
    }

    /** Everything the encoder still owes its caller. */
    ghost function Remaining(): Bytes
      reads this
    {
      Written() + StackBytes(pending)
    }

    constructor (frame: Frame, version: Version, chunk: nat, zeroCopy: nat)
      ensures Valid() && Bounded()
      ensures Remaining() == Emit(frame, version)
      ensures bound == 2 * Height(frame) + 1
      ensures chunkBytes == Max(chunk, 1) && zeroCopyMin == Max(zeroCopy, 1)
      ensures shape == Shape(zeroCopyMin, Width(frame, version, zeroCopyMin), Payloads(frame, zeroCopyMin))
    {
      pending := [One(frame, version)];
      ready := [];
      buf := [];
      chunkBytes := if chunk < 1 then 1 else chunk;
      zeroCopyMin := if zeroCopy < 1 then 1 else zeroCopy;
      bound := 2 * Height(frame) + 1;
      ghost var least := Max(zeroCopy, 1);
      shape := Shape(least, Width(frame, version, least), Payloads(frame, least));
      new;
      PushBytes([], One(frame, version));
      assert pending == [] + [One(frame, version)];
    }

    /** The stack never outgrows twice the reply's height plus one, however wide the reply is. */
    lemma StackBound()
      requires Valid()
      ensures |pending| <= bound
    {
      if pending != [] { assert |pending| - 1 + Room(pending[|pending| - 1]) <= bound; }
    }

    /** Writes one frame's own bytes and queues its children in wire order. */
    method Step(frame: Frame, version: Version)
      requires Valid() && |pending| + 2 * Height(frame) <= bound && AllowsFrame(shape, frame, version)
      modifies this`pending, this`ready, this`buf
      ensures Valid()
      ensures pending == old(pending) + ChildWork(frame, version)
      ensures Written() == old(Written()) + OwnBytes(frame, version)
      ensures old(ready == [] && |buf| < chunkBytes) ==> Bounded()
    {
      hide Header, Height, Room, Flatten, Allows, Width, Payloads;
      ExpandFits(frame, version, pending, bound);
      ExpandAllowed(shape, frame, version, pending);
      WidthCovers(frame, version, zeroCopyMin);
      if ZeroCopied(frame, zeroCopyMin) {
        StepZeroCopy(frame.payload.value);
        assert pending == old(pending) + [];
      } else {
        StepCopied(frame, version);
        ConcatAssoc(Flatten(ready), old(buf), OwnBytes(frame, version));
      }
    }

    method StepCopied(frame: Frame, version: Version)
      modifies this`pending, this`buf
      ensures pending == old(pending) + ChildWork(frame, version)
      ensures buf == old(buf) + OwnBytes(frame, version)
    {
      hide Header;
      match frame {
        case Versioned(p, g) => pending := pending + [One(g, VersionOf(p))];
        case Array(items) =>
          buf := WriteHeader(STAR, |items|, buf);
          pending := pending + [Items(items, version)];
        case Push(items) =>
          buf := WriteHeader(if version == Resp2 then STAR else GREATER, |items|, buf);
          pending := pending + [Items(items, version)];
        case Map(entries) =>
          if version == Resp3 {
            buf := WriteHeader(PERCENT, |entries|, buf);
          } else {
            SaturatedHeader(STAR, |entries| * 2);
            buf := WriteHeader(STAR, SatMul(|entries|, 2), buf);
          }
          pending := pending + [Entries(entries, version)];
        case Sequence(items) => pending := pending + [Items(items, version)];
        case _ =>
          buf := EncodeForVersionInto(frame, buf, version);
          assert pending == old(pending) + [];
      }
    }

    /** A large bulk string leaves as its own piece, uncopied, after its header. */
    method StepZeroCopy(value: Bytes)
      requires Valid() && |value| >= zeroCopyMin
      modifies this`ready, this`buf
      ensures Valid()
      ensures Written() == old(Written()) + (Header(DOLLAR, |value|) + value + CRLF)
      ensures ready == old(ready) + [old(buf) + Header(DOLLAR, |value|), value] && buf == CRLF
    {
      hide Header, Flatten;
      var header := WriteHeader(DOLLAR, |value|, buf);
      FlattenPush(ready, header);
      ready := ready + [header];
      FlattenPush(ready, value);
      ready := ready + [value];
      buf := CRLF;
      ConcatAssoc5(old(Flatten(ready)), old(buf), Header(DOLLAR, |value|), value, CRLF);
    }

    /** The next piece: never empty, and exactly the front of what remained; none only when nothing remains. */
    method Next() returns (piece: Option<Bytes>)
      requires Valid() && Bounded()
      modifies this`pending, this`ready, this`buf
      ensures Valid() && Bounded()
      ensures piece.Some? ==> Piece(piece.value)
      ensures piece.Some? ==> piece.value != [] && old(Remaining()) == piece.value + Remaining()
      ensures piece.None? ==> old(Remaining()) == [] && Remaining() == []
    {
      ghost var owed := Remaining();
      while true
        invariant Valid() && Bounded() && Remaining() == owed
        decreases StackCost(pending)
      {
        if ready != [] {
          ReadyFront(ready, buf, StackBytes(pending));
          piece := Some(ready[0]);
          ready := ready[1..];
          return;
        }
        if |buf| >= chunkBytes {
          BufferFront(buf, StackBytes(pending));
          piece := Some(buf);
          buf := [];
          return;
        }
        if pending == [] {
          BufferFront(buf, []);
          piece := if buf != [] then Some(buf) else None;
          buf := [];
          return;
        }
        Advance();
      }
    }

    /** Pops one piece of work and expands it, owing the same bytes at a smaller cost. */
    method Advance()
      requires Valid() && pending != []
      modifies this`pending, this`ready, this`buf
      ensures Valid() && Remaining() == old(Remaining())
      ensures StackCost(pending) < old(StackCost(pending))
      ensures old(Bounded() && ready == [] && |buf| < chunkBytes) ==> Bounded()
    {
      var work := pending[|pending| - 1];
      PopKeepsBytes(pending);
      PopFits(pending, bound);
      PopAllowed(shape, pending);
      pending := pending[..|pending| - 1];
      ghost var written, owed := Written(), StackBytes(old(pending));
      match work
      case One(frame, version) => Descend(frame, version, written, owed);
      case Items(items, version) =>
        if items != [] {
          pending := pending + [Items(items[1..], version)];
          Descend(items[0], version, written, owed);
        }
      case Entries(entries, version) =>
        if entries != [] {
          pending := pending + [Entries(entries[1..], version)];
          pending := pending + [One(entries[0].val, version)];
          Descend(entries[0].key, version, written, owed);
        }
    }

    /** `Step` on a frame whose bytes and the stack under it make up `owed`. */
    method Descend(frame: Frame, version: Version, ghost written: Bytes, ghost owed: Bytes)
      requires Valid() && |pending| + 2 * Height(frame) <= bound && AllowsFrame(shape, frame, version)
      requires Written() == written && Emit(frame, version) + StackBytes(pending) == owed
      modifies this`pending, this`ready, this`buf
      ensures Valid() && Remaining() == written + owed
      ensures StackCost(pending) < Cost(frame) + old(StackCost(pending))
      ensures old(ready == [] && |buf| < chunkBytes) ==> Bounded()
    {
      ExpandKeepsBytes(frame, version, pending);
      Step(frame, version);
      ConcatAssoc(written, OwnBytes(frame, version), StackBytes(pending));
    }
  }

  /**
   * A whole run: it ends, every piece is non-empty, and together they are the encoding. A piece is shorter than
   * one chunk and the widest frame together, or is one of the payloads that leave uncopied.
   */
  method Segments(frame: Frame, version: Version, chunk: nat, zeroCopy: nat) returns (pieces: seq<Bytes>)
    ensures Flatten(pieces) == Emit(frame, version)
    ensures forall i :: 0 <= i < |pieces| ==> pieces[i] != []
    ensures var least := Max(zeroCopy, 1);
      forall i :: 0 <= i < |pieces| ==>
        |pieces[i]| < Max(chunk, 1) + Width(frame, version, least) || pieces[i] in Payloads(frame, least)
  {
    hide Width, Payloads, StackBytes, Emit, Fits, AllowsAll;
    var segments := new ReplySegments(frame, version, chunk, zeroCopy);
    pieces := [];
    ghost var remaining := segments.Remaining();
    assert Flatten([]) + remaining == remaining;
    hide Flatten;
    while true
      invariant segments.Valid() && segments.Bounded() && fresh(segments) && segments.Remaining() == remaining
      invariant Flatten(pieces) + remaining == Emit(frame, version)
      invariant forall i :: 0 <= i < |pieces| ==> pieces[i] != [] && segments.Piece(pieces[i])
      decreases |remaining|
    {
      var piece := segments.Next();
      remaining := segments.Remaining();
      if piece.None? {
        assert Flatten(pieces) + [] == Flatten(pieces);
        return;
      }
      FlattenPush(pieces, piece.value);
      ConcatAssoc(Flatten(pieces), piece.value, remaining);
      pieces := pieces + [piece.value];
    }
  }
}
