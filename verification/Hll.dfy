/**
 * HyperLogLog blobs: 16384 six-bit registers packed behind a 16-byte header
 * that caches the cardinality. The hash and the floating-point estimate are
 * parameters, so the results hold for every choice of them.
 */
module Hll {
  import opened Base

  const REGISTERS: nat := 16384
  const HEADER: nat := 16
  const SIZE: nat := 12304

  // ---- bits of one or two bytes ---------------------------------------------

  /** Shifts by the amounts that occur: registers start at bit 0, 2, 4 or 6 of a byte. */
  function Shr(b: bv8, n: nat): bv8 {
    if n == 0 then b else if n == 2 then b >> 2 else if n == 4 then b >> 4 else b >> 6
  }

  function Shl(b: bv8, n: nat): bv8 {
    if n == 0 then b else if n == 2 then b << 2 else if n == 4 then b << 4 else b << 6
  }

  /** A register inside one byte. */
  function ReadOne(b: bv8, bit: nat): bv8 {
    Shr(b, bit) & 0x3F
  }

  function PutOne(b: bv8, bit: nat, v: bv8): bv8 {
    (b & !Shl(0x3F, bit)) | Shl(v, bit)
  }

  /** A register across two bytes: low bits in the first, the rest in the second. */
  function ReadTwo(a: bv8, b: bv8, bit: nat): bv8
    requires bit <= 8
  {
    (Shr(a, bit) | Shl(b, 8 - bit)) & 0x3F
  }

  function PutLow(a: bv8, bit: nat, v: bv8): bv8 {
    (a & !Shl(0xFF, bit)) | Shl(v, bit)
  }

  function PutHigh(b: bv8, bit: nat, v: bv8): bv8
    requires 2 <= bit <= 8
  {
    (b & Shl(0xFF, 6 - (8 - bit))) | Shr(v, 8 - bit)
  }

  // Four registers share three bytes a, b, c.

  lemma PutFirst(a: bv8, b: bv8, v: bv8)
    requires v <= 0x3F
    ensures ReadOne(PutOne(a, 0, v), 0) == v
    ensures ReadTwo(PutOne(a, 0, v), b, 6) == ReadTwo(a, b, 6)
  {
  }

  lemma PutSecond(a: bv8, b: bv8, c: bv8, v: bv8)
    requires v <= 0x3F
    ensures ReadOne(PutLow(a, 6, v), 0) == ReadOne(a, 0)
    ensures ReadTwo(PutLow(a, 6, v), PutHigh(b, 6, v), 6) == v
    ensures ReadTwo(PutHigh(b, 6, v), c, 4) == ReadTwo(b, c, 4)
  {
  }

  lemma PutThird(a: bv8, b: bv8, c: bv8, v: bv8)
    requires v <= 0x3F
    ensures ReadTwo(a, PutLow(b, 4, v), 6) == ReadTwo(a, b, 6)
    ensures ReadTwo(PutLow(b, 4, v), PutHigh(c, 4, v), 4) == v
    ensures ReadOne(PutHigh(c, 4, v), 2) == ReadOne(c, 2)
  {
  }

  lemma PutFourth(b: bv8, c: bv8, v: bv8)
    requires v <= 0x3F
    ensures ReadTwo(b, PutOne(c, 2, v), 4) == ReadTwo(b, c, 4)
    ensures ReadOne(PutOne(c, 2, v), 2) == v
  {
  }

  lemma MaskFits(value: bv8)
    ensures value & 0x3F <= 0x3F
  {
  }

  // ---- packed registers -----------------------------------------------------

  function ByteIndex(index: nat): nat {
    (HEADER * 8 + index * 6) / 8
  }

  function BitIndex(index: nat): nat {
    (HEADER * 8 + index * 6) % 8
  }

  function GetRegister(data: seq<bv8>, index: nat): bv8
    requires |data| == SIZE && index < REGISTERS
  {
    var i, bit := ByteIndex(index), BitIndex(index);
    if bit + 6 <= 8 then ReadOne(data[i], bit) else ReadTwo(data[i], data[i + 1], bit)
  }

  /** The bytes after writing the low six bits of `value` into a register. */
  function Written(data: seq<bv8>, index: nat, value: bv8): (r: seq<bv8>)
    requires |data| == SIZE && index < REGISTERS
    ensures |r| == SIZE
  {
    var i, bit, v := ByteIndex(index), BitIndex(index), value & 0x3F;
    if bit + 6 <= 8 then data[i := PutOne(data[i], bit, v)]
    else data[i := PutLow(data[i], bit, v)][i + 1 := PutHigh(data[i + 1], bit, v)]
  }

  lemma Position(index: nat)
    requires index < REGISTERS
    ensures var g, r := HEADER + 3 * (index / 4), index % 4;
      && g + 2 < SIZE
      && ByteIndex(index) == g + (if r == 0 then 0 else r - 1)
      && BitIndex(index) == (if r == 0 then 0 else if r == 1 then 6 else if r == 2 then 4 else 2)
  {
    var g, r := index / 4, index % 4;
    assert HEADER * 8 + index * 6 == 8 * (HEADER + 3 * g) + 6 * r;
  }

  method SetRegister(data: array<bv8>, index: nat, value: bv8)
    requires data.Length == SIZE && index < REGISTERS
    modifies data
    ensures data[..] == Written(old(data[..]), index, value)
  {
    hide ByteIndex, BitIndex, PutOne, PutLow, PutHigh;
    Position(index);
    var i, bit, v := ByteIndex(index), BitIndex(index), value & 0x3F;
    if bit + 6 <= 8 {
      data[i] := PutOne(data[i], bit, v);
    } else {
      data[i] := PutLow(data[i], bit, v);
      data[i + 1] := PutHigh(data[i + 1], bit, v);
    }
  }

  /** Registers of different groups share no byte. */
  lemma OtherGroupUntouched(data: seq<bv8>, index: nat, value: bv8, other: nat)
    requires |data| == SIZE && index < REGISTERS && other < REGISTERS && index / 4 != other / 4
    ensures GetRegister(Written(data, index, value), other) == GetRegister(data, other)
  {
    hide ByteIndex, BitIndex, ReadOne, ReadTwo, PutOne, PutLow, PutHigh;
    Position(index);
    Position(other);
  }

  lemma SameGroup(data: seq<bv8>, index: nat, value: bv8, other: nat)
    requires |data| == SIZE && index < REGISTERS && other < REGISTERS && index / 4 == other / 4
    ensures GetRegister(Written(data, index, value), other)
         == if other == index then value & 0x3F else GetRegister(data, other)
  {
    hide ByteIndex, BitIndex, ReadOne, ReadTwo, PutOne, PutLow, PutHigh;
    Position(index);
    Position(other);
    MaskFits(value);
    var g, r, v := HEADER + 3 * (index / 4), index % 4, value & 0x3F;
    var a, b, c := data[g], data[g + 1], data[g + 2];
    if r == 0 { PutFirst(a, b, v); }
    else if r == 1 { PutSecond(a, b, c, v); }
    else if r == 2 { PutThird(a, b, c, v); }
    else { PutFourth(b, c, v); }
  }

  /** A written register reads back; every other register and the header keep their value. */
  lemma WriteThenRead(data: seq<bv8>, index: nat, value: bv8, other: nat)
    requires |data| == SIZE && index < REGISTERS && other < REGISTERS
    ensures GetRegister(Written(data, index, value), other)
         == if other == index then value & 0x3F else GetRegister(data, other)
  {
    hide GetRegister, Written;
    if index / 4 == other / 4 {
      SameGroup(data, index, value, other);
    } else {
      OtherGroupUntouched(data, index, value, other);
    }
  }

  lemma WriteKeepsHeader(data: seq<bv8>, index: nat, value: bv8)
    requires |data| == SIZE && index < REGISTERS
    ensures Written(data, index, value)[..HEADER] == data[..HEADER]
  {
    hide PutOne, PutLow, PutHigh;
  }

  // ---- the register vector --------------------------------------------------

  function Val(b: bv8): nat { b as nat }

  function Bits(n: nat): bv8
    requires n < 64
  {
    n as bv8
  }

  lemma ValOrder(a: bv8, b: bv8)
    ensures a < b <==> Val(a) < Val(b)
  {
  }

  lemma BitsVal(n: nat)
    requires n < 64
    ensures Val(Bits(n)) == n
  {
  }

  lemma BitsMasked(n: nat)
    requires n < 64
    ensures Bits(n) & 0x3F == Bits(n)
  {
    BitsSmall(n);
    hide Bits;
    SmallIsMasked(Bits(n));
  }

  lemma BitsSmall(n: nat)
    requires n < 64
    ensures Bits(n) <= 0x3F
  {
  }

  lemma SmallIsMasked(value: bv8)
    requires value <= 0x3F
    ensures value & 0x3F == value
  {
  }

  function Regs(data: seq<bv8>): (r: seq<nat>)
    requires |data| == SIZE
    ensures |r| == REGISTERS && forall i :: 0 <= i < REGISTERS ==> r[i] == Val(GetRegister(data, i))
  {
    seq(REGISTERS, i requires 0 <= i < REGISTERS => Val(GetRegister(data, i)))
  }

  /** Writing `value` into a register updates that entry of the vector and no other. */
  lemma WriteRegs(data: seq<bv8>, index: nat, value: bv8)
    requires |data| == SIZE && index < REGISTERS && value & 0x3F == value
    ensures Regs(Written(data, index, value)) == Regs(data)[index := Val(value)]
  {
    hide GetRegister, Written, Val;
    forall i | 0 <= i < REGISTERS
      ensures Regs(Written(data, index, value))[i] == Regs(data)[index := Val(value)][i]
    {
      WriteThenRead(data, index, value, i);
    }
  }

  /** Registers read only the bytes behind the header. */
  lemma RegsBehindHeader(a: seq<bv8>, b: seq<bv8>)
    requires |a| == SIZE && |b| == SIZE && a[HEADER..] == b[HEADER..]
    ensures Regs(a) == Regs(b)
  {
    hide ByteIndex, BitIndex, ReadOne, ReadTwo, Val;
    forall i | 0 <= i < REGISTERS ensures Regs(a)[i] == Regs(b)[i] {
      Position(i);
      var k := ByteIndex(i);
      assert a[k] == a[HEADER..][k - HEADER] && b[k] == b[HEADER..][k - HEADER];
      if BitIndex(i) + 6 > 8 {
        assert a[k + 1] == a[HEADER..][k + 1 - HEADER] && b[k + 1] == b[HEADER..][k + 1 - HEADER];
      }
    }
  }

  lemma RegisterMasked(data: seq<bv8>, index: nat)
    requires |data| == SIZE && index < REGISTERS
    ensures GetRegister(data, index) & 0x3F == GetRegister(data, index)
  {
    hide ByteIndex, BitIndex, Shr, Shl;
    var i, bit := ByteIndex(index), BitIndex(index);
    Position(index);
    MaskTwice(Shr(data[i], bit));
    if bit + 6 > 8 { MaskTwice(Shr(data[i], bit) | Shl(data[i + 1], 8 - bit)); }
  }

  lemma MaskTwice(b: bv8)
    ensures (b & 0x3F) & 0x3F == b & 0x3F
  {
  }

  // ---- sketches of sets -----------------------------------------------------

  type u64 = x: int | 0 <= x < 0x1_0000_0000_0000_0000
  type Hash = Bytes -> u64

  /** The low fourteen bits of the hash select the register. */
  function Index(h: u64): (i: nat)
    ensures i < REGISTERS
  {
    h % REGISTERS
  }

  function TrailingZeros(x: nat): (r: nat)
    requires x > 0
  {
    if x % 2 == 1 then 0 else TrailingZeros(x / 2) + 1
  }

  /** Position of the first one-bit above the index, 51 when there is none, capped to six bits. */
  function Run(h: u64): (r: nat)
    ensures 1 <= r < 64
  {
    var remaining := h / REGISTERS;
    var count := if remaining == 0 then 51 else TrailingZeros(remaining) + 1;
    if count < 63 then count else 63
  }

  /** Each register is the longest run among the elements that select it, zero when none does. */
  ghost predicate IsSketch(regs: seq<nat>, elems: set<Bytes>, hash: Hash) {
    && |regs| == REGISTERS
    && (forall e :: e in elems ==> Run(hash(e)) <= regs[Index(hash(e))])
    && (forall i :: 0 <= i < REGISTERS && regs[i] != 0 ==>
          exists e :: e in elems && Index(hash(e)) == i && Run(hash(e)) == regs[i])
  }

  /** The registers are determined by the set of elements. */
  lemma SketchUnique(a: seq<nat>, b: seq<nat>, elems: set<Bytes>, hash: Hash)
    requires IsSketch(a, elems, hash) && IsSketch(b, elems, hash)
    ensures a == b
  {
    hide Index, Run;
    forall i | 0 <= i < REGISTERS ensures a[i] == b[i] {
      if a[i] != 0 { var e :| e in elems && Index(hash(e)) == i && Run(hash(e)) == a[i]; }
      if b[i] != 0 { var e :| e in elems && Index(hash(e)) == i && Run(hash(e)) == b[i]; }
    }
  }

  /** The register vector after one element. */
  function Added(regs: seq<nat>, h: u64): (r: seq<nat>)
    requires |regs| == REGISTERS
    ensures |r| == REGISTERS
  {
    if regs[Index(h)] < Run(h) then regs[Index(h) := Run(h)] else regs
  }

  lemma AddSketch(regs: seq<nat>, elems: set<Bytes>, hash: Hash, e: Bytes)
    requires IsSketch(regs, elems, hash)
    ensures IsSketch(Added(regs, hash(e)), elems + {e}, hash)
  {
    hide Index, Run;
    var r := Added(regs, hash(e));
    forall i | 0 <= i < REGISTERS && r[i] != 0
      ensures exists x :: x in elems + {e} && Index(hash(x)) == i && Run(hash(x)) == r[i]
    {
      if r[i] == regs[i] {
        var x :| x in elems && Index(hash(x)) == i && Run(hash(x)) == regs[i];
        assert x in elems + {e};
      } else {
        assert e in elems + {e};
      }
    }
  }

  function Zeros(): (r: seq<nat>)
    ensures |r| == REGISTERS
  {
    seq(REGISTERS, _ => 0)
  }

  function AddAll(regs: seq<nat>, elems: seq<Bytes>, hash: Hash): (r: seq<nat>)
    requires |regs| == REGISTERS
    ensures |r| == REGISTERS
    decreases |elems|
  {
    if elems == [] then regs else AddAll(Added(regs, hash(elems[0])), elems[1..], hash)
  }

  lemma {:induction false} AddAllSketch(regs: seq<nat>, known: set<Bytes>, elems: seq<Bytes>, hash: Hash)
    requires IsSketch(regs, known, hash)
    ensures IsSketch(AddAll(regs, elems, hash), known + (set e | e in elems), hash)
    decreases |elems|
  {
    hide Added, Index, Run;
    if elems == [] {
      assert known + (set e | e in elems) == known;
    } else {
      AddSketch(regs, known, hash, elems[0]);
      AddAllSketch(Added(regs, hash(elems[0])), known + {elems[0]}, elems[1..], hash);
      assert known + {elems[0]} + (set e | e in elems[1..]) == known + (set e | e in elems);
    }
  }

  /** Two sequences of adds over the same elements leave the same registers, whatever order or repetition. */
  lemma AddsDependOnSetOnly(a: seq<Bytes>, b: seq<Bytes>, hash: Hash)
    requires (set e | e in a) == (set e | e in b)
    ensures AddAll(Zeros(), a, hash) == AddAll(Zeros(), b, hash)
  {
    hide AddAll, Index, Run;
    AddAllSketch(Zeros(), {}, a, hash);
    AddAllSketch(Zeros(), {}, b, hash);
    assert {} + (set e | e in a) == {} + (set e | e in b);
    SketchUnique(AddAll(Zeros(), a, hash), AddAll(Zeros(), b, hash), {} + (set e | e in a), hash);
  }

  /** Registerwise maximum. */
  function Joined(a: seq<nat>, b: seq<nat>): (r: seq<nat>)
    requires |a| == REGISTERS && |b| == REGISTERS
    ensures |r| == REGISTERS && forall i :: 0 <= i < REGISTERS ==> r[i] == if a[i] < b[i] then b[i] else a[i]
  {
    seq(REGISTERS, i requires 0 <= i < REGISTERS => if a[i] < b[i] then b[i] else a[i])
  }

  /** Merging sketches of two sets gives the sketch of their union. */
  lemma MergeIsUnion(a: seq<nat>, left: set<Bytes>, b: seq<nat>, right: set<Bytes>, hash: Hash)
    requires IsSketch(a, left, hash) && IsSketch(b, right, hash)
    ensures IsSketch(Joined(a, b), left + right, hash)
  {
    hide Index, Run;
    var r := Joined(a, b);
    forall i | 0 <= i < REGISTERS && r[i] != 0
      ensures exists e :: e in left + right && Index(hash(e)) == i && Run(hash(e)) == r[i]
    {
      if r[i] == a[i] {
        var e :| e in left && Index(hash(e)) == i && Run(hash(e)) == a[i];
        assert e in left + right;
      } else {
        var e :| e in right && Index(hash(e)) == i && Run(hash(e)) == b[i];
        assert e in left + right;
      }
    }
  }

  // ---- the cached cardinality -----------------------------------------------

  /** An i64 as its two's complement pattern. */
  type Word = bv64

  const INVALID: Word := 0xFFFF_FFFF_FFFF_FFFF

  predicate NonNegative(w: Word) {
    w < 0x8000_0000_0000_0000
  }

  function LittleEndian(w: Word): (r: seq<bv8>)
    ensures |r| == 8
  {
    [(w & 0xFF) as bv8, ((w >> 8) & 0xFF) as bv8, ((w >> 16) & 0xFF) as bv8, ((w >> 24) & 0xFF) as bv8,
     ((w >> 32) & 0xFF) as bv8, ((w >> 40) & 0xFF) as bv8, ((w >> 48) & 0xFF) as bv8, ((w >> 56) & 0xFF) as bv8]
  }

  function FromLittleEndian(b: seq<bv8>): Word
    requires |b| == 8
  {
    (b[0] as Word) | ((b[1] as Word) << 8) | ((b[2] as Word) << 16) | ((b[3] as Word) << 24)
    | ((b[4] as Word) << 32) | ((b[5] as Word) << 40) | ((b[6] as Word) << 48) | ((b[7] as Word) << 56)
  }

  lemma WordRoundTrip(w: Word)
    ensures FromLittleEndian(LittleEndian(w)) == w
  {
  }

  function GetCached(data: seq<bv8>): Word
    requires |data| == SIZE
  {
    FromLittleEndian(data[8..16])
  }

  function WithCached(data: seq<bv8>, w: Word): (r: seq<bv8>)
    requires |data| == SIZE
    ensures |r| == SIZE
  {
    data[..8] + LittleEndian(w) + data[16..]
  }

  lemma CacheReadsBack(data: seq<bv8>, w: Word)
    requires |data| == SIZE
    ensures GetCached(WithCached(data, w)) == w
    ensures Regs(WithCached(data, w)) == Regs(data)
    ensures WithCached(data, w)[..8] == data[..8]
  {
    hide LittleEndian, FromLittleEndian, GetRegister;
    var r := WithCached(data, w);
    assert r[8..16] == LittleEndian(w);
    WordRoundTrip(w);
    assert r[HEADER..] == data[HEADER..];
    RegsBehindHeader(r, data);
  }

  // ---- blob operations ------------------------------------------------------

  type Estimate = seq<nat> -> Word

  /** A cached value that would be believed is the estimate of the registers behind it. */
  predicate CacheOk(data: seq<bv8>, raw: Estimate) {
    |data| == SIZE && (NonNegative(GetCached(data)) ==> GetCached(data) == raw(Regs(data)))
  }

  /** What every blob reachable from `Create` by the operations below is: a sketch of the elements put in. */
  ghost predicate Sketches(data: seq<bv8>, elems: set<Bytes>, hash: Hash, raw: Estimate) {
    |data| == SIZE && IsSketch(Regs(data), elems, hash) && CacheOk(data, raw)
  }

  lemma CacheWrites(data: seq<bv8>, raw: Estimate)
    requires |data| == SIZE
    ensures CacheOk(WithCached(data, INVALID), raw)
    ensures CacheOk(WithCached(data, raw(Regs(data))), raw)
  {
    hide GetCached, WithCached, Regs;
    CacheReadsBack(data, INVALID);
    CacheReadsBack(data, raw(Regs(data)));
  }

  /** The empty blob: magic, dense marker, invalid cache, all registers zero. */
  function Created(): (r: seq<bv8>)
    ensures |r| == SIZE
  {
    [0x48, 0x59, 0x4C, 0x4C, 0, 0, 0, 0] + LittleEndian(INVALID) + seq(SIZE - HEADER, _ => 0)
  }

  predicate IsValid(data: seq<bv8>) {
    |data| == SIZE && data[0..4] == [0x48, 0x59, 0x4C, 0x4C] && data[4] == 0
  }

  lemma ZeroReads(bit: nat)
    requires bit <= 8
    ensures ReadOne(0, bit) == 0 && ReadTwo(0, 0, bit) == 0
  {
  }

  lemma CreatedIsEmpty(hash: Hash, raw: Estimate)
    ensures IsValid(Created()) && Regs(Created()) == Zeros() && Sketches(Created(), {}, hash, raw)
  {
    hide LittleEndian, FromLittleEndian, ByteIndex, BitIndex, ReadOne, ReadTwo;
    var data := Created();
    forall i | 0 <= i < REGISTERS ensures Regs(data)[i] == 0 {
      Position(i);
      ZeroReads(BitIndex(i));
    }
    assert Regs(data) == Zeros();
    assert data[8..16] == LittleEndian(INVALID);
    WordRoundTrip(INVALID);
  }

  method Create() returns (data: array<bv8>)
    ensures fresh(data) && data[..] == Created()
  {
    hide LittleEndian;
    data := new bv8[SIZE](_ => 0);
    data[0], data[1], data[2], data[3] := 0x48, 0x59, 0x4C, 0x4C;
    SetCached(data, INVALID);
    assert data[..] == Created();
  }

  method SetCached(data: array<bv8>, w: Word)
    requires data.Length == SIZE
    modifies data
    ensures data[..] == WithCached(old(data[..]), w)
  {
    hide LittleEndian;
    var bytes := LittleEndian(w);
    for i := 0 to 8
      invariant data[..] == old(data[..8]) + bytes[..i] + old(data[8 + i..])
    {
      data[8 + i] := bytes[i];
    }
  }

  /** A blob of the wrong length counts as empty. */
  function Blob(data: seq<bv8>): (r: seq<bv8>)
    ensures |r| == SIZE
  {
    if |data| == SIZE then data else Created()
  }

  method Add(data: array<bv8>, element: Bytes, hash: Hash, ghost raw: Estimate)
      returns (out: array<bv8>, changed: bool)
    modifies data
    ensures out == data || fresh(out)
    ensures out.Length == SIZE && (data.Length == SIZE ==> out == data)
    ensures Regs(out[..]) == Added(Regs(Blob(old(data[..]))), hash(element))
    ensures changed <==> Regs(out[..]) != Regs(Blob(old(data[..])))
    ensures out[..8] == Blob(old(data[..]))[..8]
    ensures CacheOk(Blob(old(data[..])), raw) ==> CacheOk(out[..], raw)
  {
    hide Created, WithCached, GetRegister, Written, CacheOk, Index, Run, Val, Bits;
    out := data;
    if data.Length != SIZE {
      out := Create();
    }
    ghost var before := out[..];
    var index, count := Index(hash(element)), Bits(Run(hash(element)));
    BitsVal(Run(hash(element)));
    BitsMasked(Run(hash(element)));
    var previous := GetRegister(out[..], index);
    ValOrder(previous, count);
    if previous < count {
      SetRegister(out, index, count);
      WriteRegs(before, index, count);
      WriteKeepsHeader(before, index, count);
      ghost var written := out[..];
      SetCached(out, INVALID);
      CacheWrites(written, raw);
      CacheReadsBack(written, INVALID);
      assert Regs(out[..])[index] != Regs(before)[index];
      assert out[..8] == written[..HEADER][..8] == before[..HEADER][..8];
      changed := true;
    } else {
      changed := false;
    }
  }

  /** Registers after merging sources in turn; a source of the wrong length is skipped. */
  function MergedRegs(regs: seq<nat>, sources: seq<seq<bv8>>): (r: seq<nat>)
    requires |regs| == REGISTERS
    ensures |r| == REGISTERS
    decreases |sources|
  {
    if sources == [] then regs
    else
      var last := sources[|sources| - 1];
      var r := MergedRegs(regs, sources[..|sources| - 1]);
      if |last| == SIZE then Joined(r, Regs(last)) else r
  }

  function Union(sets: seq<set<Bytes>>): set<Bytes> {
    if sets == [] then {} else Union(sets[..|sets| - 1]) + sets[|sets| - 1]
  }

  /** Merging sketches of any number of sets gives the sketch of all of them together. */
  lemma {:induction false} MergedIsUnion(regs: seq<nat>, elems: set<Bytes>, sources: seq<seq<bv8>>,
      sets: seq<set<Bytes>>, hash: Hash)
    requires |regs| == REGISTERS && IsSketch(regs, elems, hash) && |sources| == |sets|
    requires forall k :: 0 <= k < |sources| ==>
      if |sources[k]| == SIZE then IsSketch(Regs(sources[k]), sets[k], hash) else sets[k] == {}
    ensures IsSketch(MergedRegs(regs, sources), elems + Union(sets), hash)
    decreases |sources|
  {
    hide Joined, Regs, IsSketch;
    if sources == [] {
      assert elems + Union(sets) == elems;
    } else {
      var n := |sources| - 1;
      MergedIsUnion(regs, elems, sources[..n], sets[..n], hash);
      assert elems + Union(sets) == (elems + Union(sets[..n])) + sets[n];
      if |sources[n]| == SIZE {
        MergeIsUnion(MergedRegs(regs, sources[..n]), elems + Union(sets[..n]), Regs(sources[n]), sets[n], hash);
      } else {
        assert elems + Union(sets) == elems + Union(sets[..n]);
      }
    }
  }

  /** The sources the documentation promises to merge; the others replaced by something of the wrong length. */
  function ValidOnly(sources: seq<seq<bv8>>): (r: seq<seq<bv8>>)
    ensures |r| == |sources| && forall k :: 0 <= k < |sources| ==>
      r[k] == if IsValid(sources[k]) then sources[k] else []
  {
    seq(|sources|, k requires 0 <= k < |sources| => if IsValid(sources[k]) then sources[k] else [])
  }

  /** `v` is the largest of the destination's register and those of the sources of the right length. */
  ghost predicate IsMax(regs: seq<nat>, sources: seq<seq<bv8>>, i: nat, v: nat)
    requires |regs| == REGISTERS && i < REGISTERS
  {
    && regs[i] <= v
    && (forall k :: 0 <= k < |sources| && |sources[k]| == SIZE ==> Regs(sources[k])[i] <= v)
    && (v == regs[i] || exists k :: 0 <= k < |sources| && |sources[k]| == SIZE && Regs(sources[k])[i] == v)
  }

  lemma MaxStep(regs: seq<nat>, sources: seq<seq<bv8>>, i: nat, v: nat)
    requires |regs| == REGISTERS && i < REGISTERS && sources != []
    requires IsMax(regs, sources[..|sources| - 1], i, v)
    ensures var last := sources[|sources| - 1];
      IsMax(regs, sources, i, if |last| == SIZE && v < Regs(last)[i] then Regs(last)[i] else v)
  {
    hide Regs;
    var n := |sources| - 1;
    assert forall k :: 0 <= k < n ==> sources[..n][k] == sources[k];
  }

  lemma {:induction false} MergedIsMax(regs: seq<nat>, sources: seq<seq<bv8>>, i: nat)
    requires |regs| == REGISTERS && i < REGISTERS
    ensures IsMax(regs, sources, i, MergedRegs(regs, sources)[i])
    decreases |sources|
  {
    hide Regs, Joined;
    if sources != [] {
      var n := |sources| - 1;
      MergedIsMax(regs, sources[..n], i);
      hide IsMax;
      MaxStep(regs, sources, i, MergedRegs(regs, sources[..n])[i]);
    }
  }

  /**
   * A source of the right length that is no valid blob and has register `i` above the destination's and above that
   * of every valid source.
   */
  ghost predicate Intrudes(regs: seq<nat>, sources: seq<seq<bv8>>, k: nat, i: nat)
    requires |regs| == REGISTERS && k < |sources| && i < REGISTERS
  {
    && |sources[k]| == SIZE && !IsValid(sources[k]) && regs[i] < Regs(sources[k])[i]
    && forall j :: 0 <= j < |sources| && IsValid(sources[j]) ==> Regs(sources[j])[i] < Regs(sources[k])[i]
  }

  /** Which means above the documented result. */
  lemma IntrudesAbove(regs: seq<nat>, sources: seq<seq<bv8>>, k: nat, i: nat)
    requires |regs| == REGISTERS && k < |sources| && i < REGISTERS
    requires |sources[k]| == SIZE && !IsValid(sources[k])
    ensures Intrudes(regs, sources, k, i) <==> MergedRegs(regs, ValidOnly(sources))[i] < Regs(sources[k])[i]
  {
    hide Regs, MergedRegs;
    var valid := ValidOnly(sources);
    MergedIsMax(regs, valid, i);
    forall j | 0 <= j < |sources| && IsValid(sources[j]) ensures Regs(sources[j])[i] <= MergedRegs(regs, valid)[i] {
      assert valid[j] == sources[j];
    }
    if MergedRegs(regs, valid)[i] != regs[i] {
      var j :| 0 <= j < |valid| && |valid[j]| == SIZE && Regs(valid[j])[i] == MergedRegs(regs, valid)[i];
      assert valid[j] == sources[j] && IsValid(sources[j]);
    }
  }

  /**
   * Only the length of a source is looked at: the merge is the documented one, over the valid sources alone,
   * exactly when no invalid source of the right length has a register above those of the destination and of
   * every valid source.
   */
  lemma MergesOnlyValidIff(regs: seq<nat>, sources: seq<seq<bv8>>)
    requires |regs| == REGISTERS
    ensures MergedRegs(regs, sources) == MergedRegs(regs, ValidOnly(sources))
       <==> !exists k, i :: 0 <= k < |sources| && 0 <= i < REGISTERS && Intrudes(regs, sources, k, i)
  {
    hide Regs, IsValid, MergedRegs;
    var all, valid := MergedRegs(regs, sources), MergedRegs(regs, ValidOnly(sources));
    if exists k, i :: 0 <= k < |sources| && 0 <= i < REGISTERS && Intrudes(regs, sources, k, i) {
      var k, i :| 0 <= k < |sources| && 0 <= i < REGISTERS && Intrudes(regs, sources, k, i);
      IntrudesAbove(regs, sources, k, i);
      MergedIsMax(regs, sources, i);
    } else {
      forall i | 0 <= i < REGISTERS ensures all[i] == valid[i] {
        SameMax(regs, sources, i);
      }
    }
  }

  lemma SameMax(regs: seq<nat>, sources: seq<seq<bv8>>, i: nat)
    requires |regs| == REGISTERS && i < REGISTERS
    requires forall k :: 0 <= k < |sources| ==> !Intrudes(regs, sources, k, i)
    ensures MergedRegs(regs, sources)[i] == MergedRegs(regs, ValidOnly(sources))[i]
  {
    hide Regs, MergedRegs, Intrudes;
    var all, valid := MergedRegs(regs, sources), MergedRegs(regs, ValidOnly(sources));
    MergedIsMax(regs, sources, i);
    MergedIsMax(regs, ValidOnly(sources), i);
    if all[i] != regs[i] {
      var k :| 0 <= k < |sources| && |sources[k]| == SIZE && Regs(sources[k])[i] == all[i];
      assert !Intrudes(regs, sources, k, i);
      if IsValid(sources[k]) {
        assert ValidOnly(sources)[k] == sources[k];
      } else {
        IntrudesAbove(regs, sources, k, i);
      }
    }
    if valid[i] != regs[i] {
      var k :| 0 <= k < |sources| && |ValidOnly(sources)[k]| == SIZE && Regs(ValidOnly(sources)[k])[i] == valid[i];
      assert ValidOnly(sources)[k] == sources[k];
    }
  }

  /** A blob of the right length without the magic, its first register one. */
  function WrongMagic(): (r: seq<bv8>)
    ensures |r| == SIZE
  {
    Written(Created()[0 := 0], 0, 1)
  }

  /** The input that shows it: merged into an empty blob, it sets the first register. */
  lemma WrongMagicIsMerged()
    ensures !IsValid(WrongMagic())
    ensures MergedRegs(Zeros(), [WrongMagic()])[0] == 1 && MergedRegs(Zeros(), ValidOnly([WrongMagic()])) == Zeros()
  {
    hide GetRegister, Written, Created, Regs;
    var blank := Created()[0 := 0];
    WriteKeepsHeader(blank, 0, 1);
    assert WrongMagic()[..HEADER][0] == blank[..HEADER][0] == 0;
    assert WrongMagic()[0..4][0] == WrongMagic()[..HEADER][0];
    WriteThenRead(blank, 0, 1, 0);
    OneVal();
    assert Regs(WrongMagic())[0] == 1;
    MergedOnce(Zeros(), WrongMagic());
    var kept := ValidOnly([WrongMagic()]);
    assert kept[..0] == [] && kept[0] == [];
    assert MergedRegs(Zeros(), kept[..0]) == Zeros();
  }

  lemma OneVal()
    ensures Val(1 & 0x3F) == 1
  {
  }

  method MergeOne(dest: array<bv8>, source: seq<bv8>)
    requires dest.Length == SIZE && |source| == SIZE
    modifies dest
    ensures Regs(dest[..]) == Joined(Regs(old(dest[..])), Regs(source))
    ensures dest[..HEADER] == old(dest[..HEADER])
  {
    hide GetRegister, Written, Val;
    ghost var before := dest[..];
    for i := 0 to REGISTERS
      invariant forall j :: 0 <= j < i ==> Regs(dest[..])[j] == Joined(Regs(before), Regs(source))[j]
      invariant forall j :: i <= j < REGISTERS ==> Regs(dest[..])[j] == Regs(before)[j]
      invariant dest[..HEADER] == before[..HEADER]
    {
      ghost var now := dest[..];
      var theirs, ours := GetRegister(source, i), GetRegister(dest[..], i);
      ValOrder(ours, theirs);
      if ours < theirs {
        RegisterMasked(source, i);
        SetRegister(dest, i, theirs);
        WriteRegs(now, i, theirs);
        WriteKeepsHeader(now, i, theirs);
      }
    }
  }

  method Merge(dest: array<bv8>, sources: seq<seq<bv8>>, ghost raw: Estimate) returns (out: array<bv8>)
    modifies dest
    ensures out == dest || fresh(out)
    ensures out.Length == SIZE && (dest.Length == SIZE ==> out == dest)
    ensures Regs(out[..]) == MergedRegs(Regs(Blob(old(dest[..]))), sources)
    ensures out[..8] == Blob(old(dest[..]))[..8]
    ensures CacheOk(out[..], raw)
  {
    hide Created, WithCached, Regs, CacheOk, Joined;
    out := dest;
    if dest.Length != SIZE {
      out := Create();
    }
    ghost var before := out[..];
    for k := 0 to |sources|
      invariant out.Length == SIZE
      invariant Regs(out[..]) == MergedRegs(Regs(before), sources[..k])
      invariant out[..8] == before[..8]
    {
      assert sources[..k + 1][..k] == sources[..k];
      if |sources[k]| == SIZE {
        ghost var now := out[..];
        MergeOne(out, sources[k]);
        assert out[..8] == out[..HEADER][..8] == now[..HEADER][..8];
      }
    }
    assert sources[..|sources|] == sources;
    CacheWrites(out[..], raw);
    CacheReadsBack(out[..], INVALID);
    SetCached(out, INVALID);
  }

  /** The estimate: the cache when it is believed, a recount otherwise, zero for a blob of the wrong length. */
  function Counted(data: seq<bv8>, raw: Estimate): (r: Word)
    ensures CacheOk(data, raw) ==> r == raw(Regs(data))
    ensures |data| != SIZE ==> r == 0
  {
    if |data| != SIZE then 0
    else if NonNegative(GetCached(data)) then GetCached(data)
    else raw(Regs(data))
  }

  method CountAndCache(data: array<bv8>, raw: Estimate) returns (count: Word)
    modifies data
    ensures count == Counted(old(data[..]), raw)
    ensures data.Length == SIZE ==> Regs(data[..]) == Regs(old(data[..]))
    ensures data.Length != SIZE ==> data[..] == old(data[..])
    ensures Counted(data[..], raw) == count
    ensures CacheOk(old(data[..]), raw) ==> CacheOk(data[..], raw)
  {
    hide WithCached, GetCached, Regs;
    if data.Length != SIZE {
      return 0;
    }
    var cached := GetCached(data[..]);
    if NonNegative(cached) {
      return cached;
    }
    count := raw(Regs(data[..]));
    CacheReadsBack(data[..], count);
    SetCached(data, count);
  }

  // ---- runs -----------------------------------------------------------------

  datatype Step = AddElement(element: Bytes) | MergeFrom(source: seq<bv8>, elems: set<Bytes>) | CacheCount

  /** The elements a run has put in: those added and those of the merged sketches. */
  function Elements(start: set<Bytes>, steps: seq<Step>): set<Bytes> {
    if steps == [] then start
    else
      var before := Elements(start, steps[..|steps| - 1]);
      match steps[|steps| - 1]
      case AddElement(e) => before + {e}
      case MergeFrom(_, elems) => before + elems
      case CacheCount => before
  }

  /**
   * Any run of adds, merges and caching counts keeps the blob a sketch of its elements, so every count is a
   * recount.
   */
  method RunBlob(steps: seq<Step>, hash: Hash, raw: Estimate) returns (out: array<bv8>, count: Word)
    requires forall k :: 0 <= k < |steps| && steps[k].MergeFrom? ==>
      Sketches(steps[k].source, steps[k].elems, hash, raw)
    ensures Sketches(out[..], Elements({}, steps), hash, raw)
    ensures count == raw(Regs(out[..]))
  {
    hide Created, Regs, IsSketch, CacheOk, Counted, Added, MergedRegs, Joined;
    CreatedIsEmpty(hash, raw);
    out := Create();
    for k := 0 to |steps|
      invariant fresh(out) && Sketches(out[..], Elements({}, steps[..k]), hash, raw)
    {
      assert steps[..k + 1][..k] == steps[..k];
      ghost var before, elems := out[..], Elements({}, steps[..k]);
      match steps[k] {
        case AddElement(e) =>
          AddSketch(Regs(before), elems, hash, e);
          var changed;
          out, changed := Add(out, e, hash, raw);
        case MergeFrom(source, merged) =>
          MergeIsUnion(Regs(before), elems, Regs(source), merged, hash);
          MergedOnce(Regs(before), source);
          out := Merge(out, [source], raw);
        case CacheCount =>
          var _ := CountAndCache(out, raw);
      }
    }
    assert steps[..|steps|] == steps;
    count := Counted(out[..], raw);
  }

  lemma MergedOnce(regs: seq<nat>, source: seq<bv8>)
    requires |regs| == REGISTERS && |source| == SIZE
    ensures MergedRegs(regs, [source]) == Joined(regs, Regs(source))
  {
    hide Regs, Joined;
    assert [source][..0] == [];
    assert MergedRegs(regs, []) == regs;
  }

  /** Two blobs over the same elements give the same count, however each was built and whatever it has cached. */
  lemma CountDependsOnSetOnly(a: seq<bv8>, b: seq<bv8>, elems: set<Bytes>, hash: Hash, raw: Estimate)
    requires Sketches(a, elems, hash, raw) && Sketches(b, elems, hash, raw)
    ensures Counted(a, raw) == Counted(b, raw)
  {
    hide Regs, IsSketch, CacheOk, Counted;
    SketchUnique(Regs(a), Regs(b), elems, hash);
  }
}
