/**
 * Cluster hash slots: the table-driven CRC-16/XMODEM of a key's hash tag,
 * modulo 16384. The reference is schoolbook long division of the message,
 * followed by sixteen zero bits, by the polynomial x^16 + 0x1021.
 */
module Slot {
  type Key = seq<bv8>

  // ---- the register ---------------------------------------------------------

  function Xor(a: bv16, b: bv16): bv16 { a ^ b }

  function Double(c: bv16): bv16 { c << 1 }

  /** The divisor when the leading bit is about to leave the register, zero otherwise. */
  function Carry(c: bv16): bv16 {
    if c & 0x8000 != 0 then 0x1021 else 0
  }

  /** One step of the register, no message bit fed in. */
  function Shift(c: bv16): bv16 {
    Xor(Double(c), Carry(c))
  }

  function Shifts(c: bv16, n: nat): bv16
    decreases n
  {
    if n == 0 then c else Shifts(Shift(c), n - 1)
  }

  lemma XorAssoc(a: bv16, b: bv16, c: bv16)
    ensures Xor(a, Xor(b, c)) == Xor(Xor(a, b), c)
  {
  }

  lemma XorComm(a: bv16, b: bv16)
    ensures Xor(a, b) == Xor(b, a)
  {
  }

  lemma TopLinear(a: bv16, b: bv16)
    ensures (Xor(a, b) & 0x8000 != 0) == ((a & 0x8000 != 0) != (b & 0x8000 != 0))
  {
  }

  lemma XorZero(a: bv16)
    ensures Xor(a, a) == 0 && Xor(0, a) == a && Xor(a, 0) == a
  {
  }

  lemma CarryLinear(a: bv16, b: bv16)
    ensures Carry(Xor(a, b)) == Xor(Carry(a), Carry(b))
  {
    hide Xor;
    TopLinear(a, b);
    XorZero(0x1021);
    XorZero(0);
  }

  lemma DoubleLinear(a: bv16, b: bv16)
    ensures Double(Xor(a, b)) == Xor(Double(a), Double(b))
  {
  }

  lemma ShiftLinear(a: bv16, b: bv16)
    ensures Shift(Xor(a, b)) == Xor(Shift(a), Shift(b))
  {
    hide Xor, Double, Carry;
    DoubleLinear(a, b);
    CarryLinear(a, b);
    var x, y, u, v := Double(a), Double(b), Carry(a), Carry(b);
    XorAssoc(x, y, Xor(u, v));
    XorAssoc(y, u, v);
    XorComm(y, u);
    XorAssoc(u, y, v);
    XorAssoc(x, u, Xor(y, v));
  }

  lemma {:induction false} ShiftsLinear(a: bv16, b: bv16, n: nat)
    ensures Shifts(Xor(a, b), n) == Xor(Shifts(a, n), Shifts(b, n))
    decreases n
  {
    hide Shift, Xor;
    if n > 0 {
      ShiftLinear(a, b);
      ShiftsLinear(Shift(a), Shift(b), n - 1);
    }
  }

  lemma {:induction false} ShiftsAdd(c: bv16, m: nat, n: nat)
    ensures Shifts(c, m + n) == Shifts(Shifts(c, m), n)
    decreases m
  {
    hide Shift;
    if m > 0 { ShiftsAdd(Shift(c), m - 1, n); }
  }

  // ---- long division --------------------------------------------------------

  /** Bring down the next message bit; subtract the divisor when the leading bit was set. */
  function Feed(r: bv16, bit: bool): bv16 {
    var down := Double(r) | (if bit then 1 else 0);
    if r & 0x8000 != 0 then down ^ 0x1021 else down
  }

  /** Remainder of a message, most significant bit first, divided by x^16 + 0x1021. */
  function Remainder(bits: seq<bool>): bv16 {
    if bits == [] then 0 else Feed(Remainder(bits[..|bits| - 1]), bits[|bits| - 1])
  }

  function BitsOf(b: bv8): (r: seq<bool>)
    ensures |r| == 8
  {
    [b & 0x80 != 0, b & 0x40 != 0, b & 0x20 != 0, b & 0x10 != 0,
     b & 0x08 != 0, b & 0x04 != 0, b & 0x02 != 0, b & 0x01 != 0]
  }

  function Message(data: Key): seq<bool> {
    if data == [] then [] else Message(data[..|data| - 1]) + BitsOf(data[|data| - 1])
  }

  function Padded(bits: seq<bool>): seq<bool> {
    bits + seq(16, _ => false)
  }

  lemma OrOne(d: bv16)
    ensures Double(d) | 1 == Double(d) ^ 1 && Double(d) | 0 == Double(d)
  {
  }

  lemma FeedIsShift(r: bv16)
    ensures Feed(r, false) == Shift(r)
    ensures Feed(r, true) == Xor(Shift(r), 1)
  {
    hide Double;
    OrOne(r);
  }

  lemma {:induction false} ZerosAreShifts(bits: seq<bool>, n: nat)
    ensures Remainder(bits + seq(n, _ => false)) == Shifts(Remainder(bits), n)
  {
    hide Feed, Shift;
    if n == 0 {
      assert bits + seq(n, _ => false) == bits;
    } else {
      var all := bits + seq(n, _ => false);
      assert all[..|all| - 1] == bits + seq(n - 1, _ => false);
      ZerosAreShifts(bits, n - 1);
      FeedIsShift(Remainder(all[..|all| - 1]));
      ShiftsAdd(Remainder(bits), n - 1, 1);
      assert Shifts(Shifts(Remainder(bits), n - 1), 1) == Shift(Shifts(Remainder(bits), n - 1));
    }
  }

  // ---- folding bits in at the top -------------------------------------------

  function Fold(c: bv16, bit: bool): bv16 {
    Shift(if bit then Xor(c, 0x8000) else c)
  }

  lemma FifteenShifts()
    ensures Shifts(1, 15) == 0x8000
  {
    assert Shifts(1, 4) == 0x10;
    ShiftsAdd(1, 4, 4);
    assert Shifts(0x10, 4) == 0x100;
    ShiftsAdd(1, 8, 4);
    assert Shifts(0x100, 4) == 0x1000;
    ShiftsAdd(1, 12, 3);
    assert Shifts(0x1000, 3) == 0x8000;
  }

  lemma SixteenShiftsOfOne()
    ensures Shifts(1, 16) == Shift(0x8000)
  {
    hide Shift;
    FifteenShifts();
    ShiftsAdd(1, 15, 1);
    assert Shifts(0x8000, 1) == Shift(0x8000);
  }

  lemma ShiftCommutes(r: bv16, n: nat)
    ensures Shift(Shifts(r, n)) == Shifts(Shift(r), n)
  {
    hide Shift;
    ShiftsAdd(r, n, 1);
    assert Shifts(Shifts(r, n), 1) == Shift(Shifts(r, n));
  }

  /** The folding register stays sixteen zero bits ahead of the division. */
  lemma FoldAhead(r: bv16, bit: bool)
    ensures Fold(Shifts(r, 16), bit) == Shifts(Feed(r, bit), 16)
  {
    hide Shift, Shifts, Feed, Xor;
    FeedIsShift(r);
    ShiftCommutes(r, 16);
    if bit {
      ShiftLinear(Shifts(r, 16), 0x8000);
      ShiftsLinear(Shift(r), 1, 16);
      SixteenShiftsOfOne();
    }
  }

  function FoldAll(c: bv16, bits: seq<bool>): bv16 {
    if bits == [] then c else Fold(FoldAll(c, bits[..|bits| - 1]), bits[|bits| - 1])
  }

  lemma {:induction false} FoldIsDivision(bits: seq<bool>)
    ensures FoldAll(0, bits) == Remainder(Padded(bits))
  {
    hide Fold, Feed, Shift;
    ZerosAreShifts(bits, 16);
    if bits == [] {
      ShiftsOfZero(16);
    } else {
      var n := |bits| - 1;
      FoldIsDivision(bits[..n]);
      ZerosAreShifts(bits[..n], 16);
      FoldAhead(Remainder(bits[..n]), bits[n]);
    }
  }

  lemma {:induction false} ShiftsOfZero(n: nat)
    ensures Shifts(0, n) == 0
  {
    if n > 0 { ShiftsOfZero(n - 1); }
  }

  lemma {:induction false} FoldAllAppend(c: bv16, a: seq<bool>, b: seq<bool>)
    ensures FoldAll(c, a + b) == FoldAll(FoldAll(c, a), b)
  {
    hide Fold;
    if b == [] {
      assert a + b == a;
    } else {
      var n := |b| - 1;
      assert (a + b)[..|a + b| - 1] == a + b[..n];
      FoldAllAppend(c, a, b[..n]);
    }
  }

  // ---- a byte at a time -----------------------------------------------------

  function Widen(b: bv8): bv16 { (b as bv16) << 8 }

  /** The byte-wise form: the byte joins the top half of the register, then eight steps. */
  function FoldByte(c: bv16, b: bv8): bv16 {
    Shifts(Xor(c, Widen(b)), 8)
  }

  predicate TopBit(m: bv16) { m & 0x8000 != 0 }

  function TopBits(m: bv16, n: nat): (r: seq<bool>)
    ensures |r| == n
    decreases n
  {
    if n == 0 then [] else [TopBit(m)] + TopBits(Double(m), n - 1)
  }

  function Doubles(m: bv16, n: nat): bv16
    decreases n
  {
    if n == 0 then m else Doubles(Double(m), n - 1)
  }

  lemma CarryOfTop(m: bv16)
    ensures Carry(m) == if TopBit(m) then 0x1021 else 0
    ensures Shift(0x8000) == 0x1021
  {
  }

  /** The leading bit of the byte is folded in; the rest of the byte moves up. */
  lemma BitOut(c: bv16, m: bv16)
    ensures Shift(Xor(c, m)) == Xor(Fold(c, TopBit(m)), Double(m))
  {
    hide Xor, Double, Carry, TopBit;
    ShiftLinear(c, m);
    CarryOfTop(m);
    XorComm(Double(m), Carry(m));
    if TopBit(m) {
      ShiftLinear(c, 0x8000);
      XorAssoc(Shift(c), Shift(0x8000), Double(m));
    } else {
      XorZero(Double(m));
    }
  }

  lemma {:induction false} BitsOut(c: bv16, m: bv16, n: nat)
    ensures Shifts(Xor(c, m), n) == Xor(FoldAll(c, TopBits(m, n)), Doubles(m, n))
    decreases n
  {
    hide Shift, Xor, Double, TopBit, Fold;
    if n > 0 {
      var bit, rest := TopBit(m), TopBits(Double(m), n - 1);
      BitOut(c, m);
      BitsOut(Fold(c, bit), Double(m), n - 1);
      FoldAllAppend(c, [bit], rest);
      assert FoldAll(c, [bit]) == Fold(c, bit) by { assert [bit][..0] == [] && FoldAll(c, []) == c; }
    }
  }

  lemma DoublesOfByte(w: bv16)
    ensures Double(w << 8) == w << 9 && Double(w << 9) == w << 10 && Double(w << 10) == w << 11
    ensures Double(w << 11) == w << 12 && Double(w << 12) == w << 13 && Double(w << 13) == w << 14
    ensures Double(w << 14) == w << 15 && Double(w << 15) == 0
  {
  }

  lemma TopOfByte(b: bv8)
    ensures var w := b as bv16;
      BitsOf(b) == [TopBit(w << 8), TopBit(w << 9), TopBit(w << 10), TopBit(w << 11)]
                 + [TopBit(w << 12), TopBit(w << 13), TopBit(w << 14), TopBit(w << 15)]
  {
  }

  lemma OneDouble(m: bv16, n: nat)
    ensures TopBits(m, n + 1) == [TopBit(m)] + TopBits(Double(m), n)
    ensures Doubles(m, n + 1) == Doubles(Double(m), n)
  {
    hide Double, TopBit;
  }

  lemma FourDoubles(m0: bv16, m1: bv16, m2: bv16, m3: bv16, m4: bv16, n: nat)
    requires Double(m0) == m1 && Double(m1) == m2 && Double(m2) == m3 && Double(m3) == m4
    ensures TopBits(m0, n + 4) == [TopBit(m0), TopBit(m1), TopBit(m2), TopBit(m3)] + TopBits(m4, n)
    ensures Doubles(m0, n + 4) == Doubles(m4, n)
  {
    hide Double, TopBit, TopBits, Doubles;
    OneDouble(m0, n + 3);
    OneDouble(m1, n + 2);
    OneDouble(m2, n + 1);
    OneDouble(m3, n);
  }

  lemma NoBits(m: bv16)
    ensures TopBits(m, 0) == [] && Doubles(m, 0) == m
  {
  }

  lemma EightDoubles(m0: bv16, m1: bv16, m2: bv16, m3: bv16, m4: bv16, m5: bv16, m6: bv16, m7: bv16, m8: bv16)
    requires Double(m0) == m1 && Double(m1) == m2 && Double(m2) == m3 && Double(m3) == m4
    requires Double(m4) == m5 && Double(m5) == m6 && Double(m6) == m7 && Double(m7) == m8
    ensures TopBits(m0, 8) ==
      [TopBit(m0), TopBit(m1), TopBit(m2), TopBit(m3)] + [TopBit(m4), TopBit(m5), TopBit(m6), TopBit(m7)]
    ensures Doubles(m0, 8) == m8
  {
    hide Double, TopBit, TopBits, Doubles;
    FourDoubles(m0, m1, m2, m3, m4, 4);
    FourDoubles(m4, m5, m6, m7, m8, 0);
    NoBits(m8);
  }

  lemma ByteBits(b: bv8)
    ensures TopBits(Widen(b), 8) == BitsOf(b)
    ensures Doubles(Widen(b), 8) == 0
  {
    hide Double, TopBit, TopBits, Doubles, BitsOf;
    var w := b as bv16;
    DoublesOfByte(w);
    TopOfByte(b);
    EightDoubles(w << 8, w << 9, w << 10, w << 11, w << 12, w << 13, w << 14, w << 15, 0);
  }

  lemma FoldByteIsBits(c: bv16, b: bv8)
    ensures FoldByte(c, b) == FoldAll(c, BitsOf(b))
  {
    hide Shifts, Xor, FoldAll, BitsOf, TopBits, Doubles, Widen;
    BitsOut(c, Widen(b), 8);
    ByteBits(b);
    XorZero(FoldAll(c, BitsOf(b)));
  }

  // ---- the table ------------------------------------------------------------

  /** The entry for an index below 256: what the register turns into after eight steps. */
  function TableEntry(i: bv16): bv16 {
    Shifts(i << 8, 8)
  }

  predicate IsTable(table: seq<bv16>) {
    |table| == 256 && forall i :: 0 <= i < 256 ==> table[i] == TableEntry(i as bv16)
  }

  lemma IndexFits(i: bv16)
    requires i < 256
    ensures i as nat < 256 && (i as nat) as bv16 == i
  {
  }

  method GenerateTable() returns (table: array<bv16>)
    ensures fresh(table) && IsTable(table[..])
  {
    hide TableEntry, Shift;
    table := new bv16[256](_ => 0);
    for i := 0 to 256
      invariant forall k :: 0 <= k < i ==> table[k] == TableEntry(k as bv16)
    {
      var crc := (i as bv16) << 8;
      assert TableEntry(i as bv16) == Shifts(crc, 8) by { EntryIs(i as bv16); }
      for j := 0 to 8
        invariant Shifts(crc, 8 - j) == TableEntry(i as bv16)
        modifies {}
      {
        StepIsShift(crc);
        if crc & 0x8000 != 0 {
          crc := (crc << 1) ^ 0x1021;
        } else {
          crc := crc << 1;
        }
      }
      assert Shifts(crc, 0) == crc;
      table[i] := crc;
    }
  }

  lemma EntryIs(i: bv16)
    ensures TableEntry(i) == Shifts(i << 8, 8)
  {
    hide Shifts;
  }

  lemma StepIsShift(c: bv16)
    ensures Shift(c) == if c & 0x8000 != 0 then (c << 1) ^ 0x1021 else c << 1
  {
    hide Xor;
    XorZero(c << 1);
    assert Xor(c << 1, 0x1021) == (c << 1) ^ 0x1021 by { XorIs(c << 1, 0x1021); }
  }

  lemma XorIs(a: bv16, b: bv16)
    ensures Xor(a, b) == a ^ b
  {
  }

  lemma NoCarry(x: bv16)
    requires x < 0x8000
    ensures Shift(x) == Double(x)
  {
    hide Xor, Double;
    XorZero(Double(x));
    CarryOfTop(x);
  }

  lemma LowShifts(x: bv16)
    requires x < 0x100
    ensures Shifts(x, 8) == x << 8
  {
    LowByte(x);
    NoCarry(x);
    NoCarry(x << 1);
    NoCarry(x << 2);
    NoCarry(x << 3);
    NoCarry(x << 4);
    NoCarry(x << 5);
    NoCarry(x << 6);
    NoCarry(x << 7);
    hide Shift, Double;
    assert Shifts(x << 4, 4) == x << 8;
    assert Shifts(x, 8) == Shifts(x << 4, 4);
  }

  lemma LowByte(x: bv16)
    requires x < 0x100
    ensures x << 1 < 0x8000 && x << 2 < 0x8000 && x << 3 < 0x8000 && x << 4 < 0x8000
    ensures x << 5 < 0x8000 && x << 6 < 0x8000 && x << 7 < 0x8000
    ensures Double(x) == x << 1 && Double(x << 1) == x << 2 && Double(x << 2) == x << 3 && Double(x << 3) == x << 4
    ensures Double(x << 4) == x << 5 && Double(x << 5) == x << 6 && Double(x << 6) == x << 7 && Double(x << 7) == x << 8
  {
  }

  lemma SplitWords(c: bv16, w: bv16)
    ensures c ^ (w << 8) == (((c >> 8) ^ w) << 8) ^ (c & 0xFF)
    ensures c & 0xFF < 0x100 && (c & 0xFF) << 8 == c << 8
  {
  }

  lemma IndexOfByte(c: bv16, b: bv8)
    ensures (c >> 8) ^ (b as bv16) < 256
  {
  }

  /** The register with a byte joined in splits into the indexed half and the rest. */
  lemma SplitRegister(c: bv16, b: bv8)
    ensures Xor(c, Widen(b)) == Xor(((c >> 8) ^ (b as bv16)) << 8, c & 0xFF)
    ensures c & 0xFF < 0x100 && (c & 0xFF) << 8 == c << 8
  {
    hide Xor;
    SplitWords(c, b as bv16);
    XorIs(c, Widen(b));
    XorIs(((c >> 8) ^ (b as bv16)) << 8, c & 0xFF);
  }

  /** One table lookup does eight steps. */
  lemma LookupIsFold(c: bv16, b: bv8)
    ensures Xor(c << 8, TableEntry((c >> 8) ^ (b as bv16))) == FoldByte(c, b)
  {
    hide Shifts, Xor, Widen;
    var idx, low := (c >> 8) ^ (b as bv16), c & 0xFF;
    SplitRegister(c, b);
    ShiftsLinear(idx << 8, low, 8);
    LowShifts(low);
    XorComm(c << 8, TableEntry(idx));
  }

  /** Remainder of the key, as a polynomial followed by sixteen zero bits, by x^16 + 0x1021. */
  function Crc(data: Key): bv16 {
    Remainder(Padded(Message(data)))
  }

  lemma CrcStep(data: Key)
    requires |data| > 0
    ensures Crc(data) == FoldByte(Crc(data[..|data| - 1]), data[|data| - 1])
  {
    hide FoldAll, Remainder, Padded, BitsOf, FoldByte;
    var n := |data| - 1;
    FoldIsDivision(Message(data));
    FoldIsDivision(Message(data[..n]));
    FoldAllAppend(0, Message(data[..n]), BitsOf(data[n]));
    FoldByteIsBits(Crc(data[..n]), data[n]);
  }

  method Crc16(table: array<bv16>, data: Key) returns (crc: bv16)
    requires IsTable(table[..])
    ensures crc == Crc(data)
  {
    hide TableEntry, Crc, FoldByte;
    crc := 0;
    assert crc == Crc([]) by { EmptyCrc(); }
    for k := 0 to |data|
      invariant crc == Crc(data[..k])
    {
      var b := data[k];
      var idx := (crc >> 8) ^ (b as bv16);
      IndexOfByte(crc, b);
      IndexFits(idx);
      LookupIsFold(crc, b);
      assert data[..k + 1][..k] == data[..k];
      CrcStep(data[..k + 1]);
      assert table[..][idx as nat] == table[idx as nat];
      crc := Xor(crc << 8, table[idx as nat]);
    }
    assert data[..|data|] == data;
  }

  lemma EmptyCrc()
    ensures Crc([]) == 0
  {
    ZerosAreShifts([], 16);
    ShiftsOfZero(16);
  }

  // ---- hash tags ------------------------------------------------------------

  const OPEN: bv8 := 0x7B
  const CLOSE: bv8 := 0x7D

  /** Position of the first occurrence, |s| when there is none. */
  function First(s: Key, b: bv8): (r: nat)
    ensures r <= |s| && (forall j :: 0 <= j < r ==> s[j] != b) && (r < |s| ==> s[r] == b)
  {
    if s == [] || s[0] == b then 0 else First(s[1..], b) + 1
  }

  /** The bytes that are hashed: those inside the first braces, the whole key when that is empty or missing. */
  function HashTag(key: Key): Key {
    var start := First(key, OPEN);
    if start == |key| then key
    else
      var rest := key[start + 1..];
      var end := First(rest, CLOSE);
      if 0 < end < |rest| then rest[..end] else key
  }

  /** A key with a tag: no opening brace before it, no closing brace inside it, at least one byte. */
  predicate Tagged(key: Key, before: Key, tag: Key, after: Key) {
    key == before + [OPEN] + tag + [CLOSE] + after && OPEN !in before && CLOSE !in tag && tag != []
  }

  lemma FirstIs(s: Key, b: bv8, k: nat)
    requires k <= |s| && (forall j :: 0 <= j < k ==> s[j] != b) && (k < |s| ==> s[k] == b)
    ensures First(s, b) == k
  {
  }

  lemma Around(s: Key, k: nat)
    requires k < |s|
    ensures s == s[..k] + ([s[k]] + s[k + 1..])
  {
  }

  lemma Nested(a: Key, b: Key, c: Key, d: Key, e: Key)
    ensures a + (b + (c + (d + e))) == a + b + c + d + e
  {
  }

  /** The pieces around the first opening brace and the first closing one after it. */
  lemma TagParts(key: Key, start: nat, end: nat)
    requires start < |key| && First(key, OPEN) == start
    requires First(key[start + 1..], CLOSE) == end && 0 < end < |key[start + 1..]|
    ensures Tagged(key, key[..start], key[start + 1..][..end], key[start + 1..][end + 1..])
  {
    hide First;
    var rest := key[start + 1..];
    Around(key, start);
    Around(rest, end);
    Nested(key[..start], [OPEN], rest[..end], [CLOSE], rest[end + 1..]);
    assert forall j :: 0 <= j < start ==> key[..start][j] == key[j] != OPEN;
    assert forall j :: 0 <= j < end ==> rest[..end][j] == rest[j] != CLOSE;
  }

  lemma TagOfTagged(key: Key, before: Key, tag: Key, after: Key)
    requires Tagged(key, before, tag, after)
    ensures HashTag(key) == tag
  {
    var start, end := |before|, |tag|;
    assert key[..start] == before && key[start] == OPEN;
    FirstIs(key, OPEN, start);
    var rest := key[start + 1..];
    assert rest[..end] == tag && rest[end] == CLOSE;
    FirstIs(rest, CLOSE, end);
  }

  /** The tag is the tag of some tagging of the key, and the whole key only when the key has none. */
  lemma TagComplete(key: Key)
    ensures (exists before, after :: Tagged(key, before, HashTag(key), after))
         || (HashTag(key) == key && !exists before, tag, after :: Tagged(key, before, tag, after))
  {
    var start := First(key, OPEN);
    if start < |key| {
      var rest := key[start + 1..];
      var end := First(rest, CLOSE);
      if 0 < end < |rest| {
        assert HashTag(key) == rest[..end];
        TagParts(key, start, end);
        return;
      }
    }
    assert HashTag(key) == key;
    if exists before, tag, after :: Tagged(key, before, tag, after) {
      var before, tag, after :| Tagged(key, before, tag, after);
      assert |key| == |before| + 1 + |tag| + 1 + |after|;
      TagOfTagged(key, before, tag, after);
    }
  }

  lemma CloseInside(before: Key, after: Key)
    ensures CLOSE in before + [CLOSE] + after
  {
    assert (before + [CLOSE] + after)[|before|] == CLOSE;
  }

  /** Extracting a tag twice changes nothing. */
  lemma TagIdempotent(key: Key)
    ensures HashTag(HashTag(key)) == HashTag(key)
  {
    var tag := HashTag(key);
    if tag != key {
      assert CLOSE !in tag;
      TagComplete(tag);
      forall before, inner, after ensures !Tagged(tag, before, inner, after) {
        CloseInside(before + [OPEN] + inner, after);
      }
    }
  }

  function KeySlot(key: Key): (slot: bv16)
    ensures slot < 16384
  {
    Crc(HashTag(key)) % 16384
  }

  method KeyHashSlot(table: array<bv16>, key: Key) returns (slot: bv16)
    requires IsTable(table[..])
    ensures slot == KeySlot(key) && slot < 16384
  {
    hide Crc, IsTable;
    var crc := Crc16(table, HashTag(key));
    slot := crc % 16384;
  }

  /** A key lives where its tag lives, and so keys with the same tag share a slot. */
  lemma SlotOfTag(key: Key, before: Key, tag: Key, after: Key)
    ensures KeySlot(key) == KeySlot(HashTag(key))
    ensures Tagged(key, before, tag, after) ==> KeySlot(key) == KeySlot(tag)
  {
    hide Crc, HashTag;
    TagIdempotent(key);
    if Tagged(key, before, tag, after) { TagOfTagged(key, before, tag, after); }
  }
}
