/** Reading bitfields through CO-RE relocations: libbpf works out where the field is
    (bpf_core_calc_field_relo in libbpf.c) and the program loads and shifts
    (BPF_CORE_READ_BITFIELD_PROBED in bpf_core_read.h). */
module Bitfields {
  import opened Basics
  import opened Words
  import opened BtfTypes
  import opened BtfLookup
  import opened CoreSpecs

  // ---------------------------------------------------------------- memory as a number

  /** The bytes as one little-endian number. */
  function Little(mem: seq<Octet>): nat {
    if mem == [] then 0 else mem[0] + 0x100 * Little(mem[1..])
  }

  /** The bytes as one big-endian number. */
  function Big(mem: seq<Octet>): nat {
    if mem == [] then 0 else Big(mem[..|mem| - 1]) * 0x100 + mem[|mem| - 1]
  }

  /** What a field of `size` bits at `off` holds. On a little-endian machine bits are counted
      from the least significant one of the first byte, on a big-endian machine from the
      most significant one. */
  function FieldBits(big: bool, mem: seq<Octet>, off: nat, size: nat): nat
    requires off + size <= 8 * |mem|
  {
    if big then Big(mem) / Pow2(8 * |mem| - off - size) % Pow2(size)
    else Little(mem) / Pow2(off) % Pow2(size)
  }

  /** The value of the field as a 64-bit word: zero- or sign-extended. */
  function Extended(bits: nat, size: nat, signed: bool): nat
    requires 0 < size <= 64 && bits < Pow2(size)
  {
    if signed && bits >= Pow2(size - 1) then (bits - Pow2(size)) % TWO_64 else bits
  }

  function Load(big: bool, mem: seq<Octet>, off: nat, n: nat): nat
    requires off + n <= |mem|
  {
    if big then Big(mem[off..off + n]) else Little(mem[off..off + n])
  }

  lemma Pow8()
    ensures Pow2(8) == 0x100
  {
  }

  lemma {:induction false} LittleFrom(mem: seq<Octet>, off: nat)
    requires off <= |mem|
    ensures Little(mem[off..]) == Little(mem) / Pow2(8 * off)
  {
    if off == 0 {
      assert mem[0..] == mem;
    } else {
      LittleFrom(mem[1..], off - 1);
      assert mem[1..][off - 1..] == mem[off..];
      Pow8();
      Pow2Adds(8, 8 * (off - 1));
      hide Pow2;
      DivDiv(Little(mem), 0x100, Pow2(8 * (off - 1)), Pow2(8 * off));
      FirstByte(mem[0], Little(mem[1..]));
    }
  }

  lemma FirstByte(b: Octet, rest: nat)
    ensures (b + 0x100 * rest) / 0x100 == rest && (b + 0x100 * rest) % 0x100 == b
  {
  }

  lemma {:induction false} LittleUpTo(mem: seq<Octet>, n: nat)
    requires n <= |mem|
    ensures Little(mem[..n]) == Little(mem) % Pow2(8 * n)
  {
    if n == 0 {
      assert mem[..0] == [];
    } else {
      LittleUpTo(mem[1..], n - 1);
      assert mem[..n][1..] == mem[1..][..n - 1];
      Pow8();
      Pow2Adds(8, 8 * (n - 1));
      LowBytes(mem[0], Little(mem[1..]), Pow2(8 * (n - 1)), Pow2(8 * n));
    }
  }

  lemma LowBytes(b: Octet, rest: nat, p: nat, w: nat)
    requires p > 0 && w == 0x100 * p
    ensures w > 0 && (b + 0x100 * rest) % w == b + 0x100 * (rest % p)
  {
    var x := b + 0x100 * rest;
    FirstByte(b, rest);
    var d := SplitDigits(x, 0x100, p, w);
    QuotientUnique(x, w, x / 0x100 / p, d);
  }

  lemma {:induction false} BigUpTo(mem: seq<Octet>, k: nat)
    requires k <= |mem|
    ensures Big(mem[..k]) == Big(mem) / Pow2(8 * (|mem| - k))
  {
    var n := |mem| - 1;
    if k == |mem| {
      assert mem[..k] == mem;
    } else {
      BigUpTo(mem[..n], k);
      assert mem[..n][..k] == mem[..k];
      Pow8();
      Pow2Adds(8, 8 * (n - k));
      LastByte(Big(mem[..n]), mem[n]);
      DivDiv(Big(mem), 0x100, Pow2(8 * (n - k)), Pow2(8 * (|mem| - k)));
    }
  }

  lemma LastByte(rest: nat, b: Octet)
    ensures (rest * 0x100 + b) / 0x100 == rest && (rest * 0x100 + b) % 0x100 == b
  {
  }

  lemma {:induction false} BigFrom(mem: seq<Octet>, k: nat)
    requires k <= |mem|
    ensures Big(mem[k..]) == Big(mem) % Pow2(8 * (|mem| - k))
  {
    var n := |mem| - 1;
    if k == |mem| {
      assert mem[k..] == [];
    } else {
      BigFrom(mem[..n], k);
      assert mem[k..][..n - k] == mem[..n][k..];
      Pow8();
      Pow2Adds(8, 8 * (n - k));
      LowBytes(mem[n], Big(mem[..n]), Pow2(8 * (n - k)), Pow2(8 * (|mem| - k)));
    }
  }

  /** A load is a slice of the whole memory read as one number. */
  lemma LoadIsSlice(big: bool, mem: seq<Octet>, off: nat, n: nat)
    requires off + n <= |mem|
    ensures Load(big, mem, off, n) ==
      (if big then Big(mem) / Pow2(8 * (|mem| - off - n)) else Little(mem) / Pow2(8 * off)) % Pow2(8 * n)
  {
    hide Little, Big, Pow2;
    if big {
      var front := mem[..off + n];
      BigUpTo(mem, off + n);
      BigFrom(front, off);
      assert front[off..] == mem[off..off + n];
    } else {
      LittleFrom(mem, off);
      LittleUpTo(mem[off..], n);
      assert mem[off..][..n] == mem[off..off + n];
    }
  }

  // ---------------------------------------------------------------- shifting

  /** `val <<= lshift` on 64 bits. */
  function ShiftLeft(v: nat, k: nat): nat { v * Pow2(k) % TWO_64 }

  /** `val >> rshift`, as a signed or as an unsigned number; the signed one repeats the top bit. */
  function ShiftRight(v: nat, k: nat, signed: bool): int
    requires v < TWO_64
  {
    if signed && v >= TWO_64 / 2 then (v - TWO_64) / Pow2(k) else v / Pow2(k)
  }

  /** The two shifts of the macro, and the conversion of the result to 64 bits unsigned. */
  function Shifted(v: nat, lshift: nat, rshift: nat, signed: bool): nat {
    ShiftRight(ShiftLeft(v, lshift), rshift, signed) % TWO_64
  }

  lemma ShiftLeftIs(v: nat, ls: nat, top: nat)
    requires ls + top == 64
    ensures ShiftLeft(v, ls) == v % Pow2(top) * Pow2(ls) && ShiftLeft(v, ls) < TWO_64
  {
    Pow2Constants();
    Pow2Adds(top, ls);
    hide Pow2;
    ModScale(v, Pow2(top), Pow2(ls));
  }

  /** Shifting a word so that a field comes to the top and then down to the bottom cuts out
      the field that begins `low` bits up. */
  lemma ShiftsCut(v: nat, low: nat, size: nat)
    requires low + size <= 64 && size > 0
    ensures v / Pow2(low) % Pow2(size) < Pow2(size)
    ensures ShiftLeft(v, 64 - low - size) / Pow2(64 - size) == v / Pow2(low) % Pow2(size)
  {
    var ls := 64 - low - size;
    ShiftLeftIs(v, ls, low + size);
    Pow2Adds(low, size);
    Pow2Adds(low, ls);
    hide Pow2;
    ModDiv(v, Pow2(low), Pow2(size), Pow2(low + size));
    DivScale(v % Pow2(low + size), Pow2(low), Pow2(ls));
    RemainderBelow(v / Pow2(low), Pow2(size));
  }

  lemma RemainderBelow(x: nat, d: nat)
    requires d > 0
    ensures x % d < d
  {
  }

  lemma ShiftsExtend(v: nat, low: nat, size: nat, signed: bool)
    requires low + size <= 64 && size > 0
    ensures v / Pow2(low) % Pow2(size) < Pow2(size)
    ensures Shifted(v, 64 - low - size, 64 - size, signed) == Extended(v / Pow2(low) % Pow2(size), size, signed)
  {
    hide ShiftLeft, ShiftRight, Extended, Pow2;
    var x, f := ShiftLeft(v, 64 - low - size), v / Pow2(low) % Pow2(size);
    ShiftsCut(v, low, size);
    ShiftLeftIs(v, 64 - low - size, low + size);
    FieldFits(f, size);
    Halves(size);
    SignBit(x, f, Pow2(64 - size), Pow2(size - 1));
    RightExtends(x, f, size, signed);
  }

  lemma Halves(size: nat)
    requires 0 < size <= 64
    ensures Pow2(size - 1) * Pow2(64 - size) == TWO_64 / 2 && Pow2(size) == 2 * Pow2(size - 1)
  {
    Pow2Constants();
    Pow2Adds(size - 1, 64 - size);
    assert Pow2(64) == 2 * Pow2(63);
  }

  lemma RightExtends(x: nat, f: nat, size: nat, signed: bool)
    requires 0 < size <= 64 && x < TWO_64 && f < Pow2(size) && f < TWO_64 && Pow2(size) == 2 * Pow2(size - 1)
    requires x / Pow2(64 - size) == f && (x - TWO_64) / Pow2(64 - size) == f - Pow2(size)
    requires x >= TWO_64 / 2 <==> f >= Pow2(size - 1)
    ensures ShiftRight(x, 64 - size, signed) % TWO_64 == Extended(f, size, signed)
  {
    hide Pow2;
  }

  lemma FieldFits(f: nat, size: nat)
    requires size <= 64 && f < Pow2(size)
    ensures f < TWO_64
  {
    Pow2Constants();
    Pow2Adds(size, 64 - size);
    hide Pow2;
    AtLeastOnce(Pow2(64 - size), Pow2(size));
    Commute(Pow2(64 - size), Pow2(size));
  }

  /** With the field at the top, the top bit is the field's sign, and an arithmetic shift
      takes the field's modulus off. */
  lemma SignBit(x: nat, f: nat, p: nat, h: nat)
    requires p > 0 && x / p == f && h * p == TWO_64 / 2
    ensures x >= TWO_64 / 2 <==> f >= h
    ensures (x - TWO_64) / p == f - 2 * h
  {
    assert x == f * p + x % p;
    if f >= h {
      Distribute(f - h, h, p);
      AtLeastZero(f - h, p);
    } else {
      Distribute(h - f, f, p);
      AtLeastOnce(h - f, p);
    }
    FloorShift(x, p, 2 * h);
    assert (2 * h) * p == TWO_64 by { Associate(2, h, p); }
  }

  lemma AtLeastZero(x: nat, d: nat)
    ensures x * d >= 0
  {
  }

  lemma FloorShift(x: int, p: nat, m: nat)
    requires p > 0
    ensures (x - m * p) / p == x / p - m
  {
    var q, r := x / p, x % p;
    assert x == q * p + r;
    Distribute(q - m, m, p);
    FloorUnique(x - m * p, p, q - m, r);
  }

  lemma FloorUnique(a: int, d: nat, q: int, r: nat)
    requires d > 0 && r < d && a == q * d + r
    ensures a / d == q
  {
    var p, s := a / d, a % d;
    assert a == p * d + s;
    if p > q {
      Distribute(p - q, q, d);
      AtLeastOnce(p - q, d);
    } else if p < q {
      Distribute(q - p, p, d);
      AtLeastOnce(q - p, d);
    }
  }

  // ---------------------------------------------------------------- where the field is

  /** A load of `byteSz` bytes at `byteOff`, for a field of `bitSz` bits. */
  datatype Layout = Layout(byteOff: nat, byteSz: nat, bitSz: nat)

  predicate Covers(bitOff: nat, l: Layout) {
    8 * l.byteOff <= bitOff && bitOff + l.bitSz <= 8 * (l.byteOff + l.byteSz)
  }

  /** The aligned load of `n` bytes that the field begins in. */
  function AlignedLoad(bitOff: nat, bitSz: nat, n: nat): Layout
    requires n > 0
  {
    Layout(AlignDown(bitOff / 8, n), n, bitSz)
  }

  function AlignDown(x: nat, n: nat): nat
    requires n > 0
  {
    x / n * n
  }

  predicate StorageSize(n: int) { n == 1 || n == 2 || n == 4 || n == 8 }

  /** A size whose bits can be counted in 32 bits. */
  predicate Countable(n: nat) { 0 < n && 8 * n + 0x100 <= TWO_32 }

  /** The first aligned load of `n`, `2n`, … bytes that covers the field, up to the first size of
      eight bytes or more. */
  function Widened(bitOff: nat, bitSz: nat, n: nat): (r: Option<Layout>)
    requires n > 0
    ensures r.Some? ==>
        Covers(bitOff, r.value) && r.value.byteSz >= n && r.value.bitSz == bitSz
        && (StorageSize(n) ==> StorageSize(r.value.byteSz))
    ensures r.None? && StorageSize(n) ==> !Covers(bitOff, AlignedLoad(bitOff, bitSz, 8))
    decreases 8 - n
  {
    if Covers(bitOff, AlignedLoad(bitOff, bitSz, n)) then Some(AlignedLoad(bitOff, bitSz, n))
    else if n >= 8 then None
    else Widened(bitOff, bitSz, 2 * n)
  }

  /** No smaller load would do. */
  lemma {:induction false} WidenedSmallest(bitOff: nat, bitSz: nat, n: nat, k: nat)
    requires StorageSize(n) && StorageSize(k) && n <= k
    requires Covers(bitOff, AlignedLoad(bitOff, bitSz, k))
    ensures Widened(bitOff, bitSz, n).Some? && Widened(bitOff, bitSz, n).value.byteSz <= k
    decreases 8 - n
  {
    if !Covers(bitOff, AlignedLoad(bitOff, bitSz, n)) {
      WidenedSmallest(bitOff, bitSz, 2 * n, k);
    }
  }

  /** The span of the field within the load, in wrapping 32-bit arithmetic. */
  function Span(bitOff: U32, bitSz: nat, byteOff: nat): U32 {
    Sub32(Add32(bitOff, bitSz), byteOff * 8 % TWO_32)
  }

  lemma SpanIs(bitOff: U32, bitSz: nat, n: nat)
    requires Countable(n) && bitSz < 0x100
    ensures var byteOff := AlignDown(bitOff / 8, n);
      8 * byteOff <= bitOff && Span(bitOff, bitSz, byteOff) == bitOff + bitSz - 8 * byteOff
  {
    Divided(bitOff / 8, n);
    SpanWraps(bitOff, bitSz, AlignDown(bitOff / 8, n), n);
  }

  lemma SpanWraps(bitOff: U32, bitSz: nat, byteOff: nat, n: nat)
    requires Countable(n) && 8 * byteOff <= bitOff < 8 * byteOff + 8 * n && bitSz < 0x100
    ensures Span(bitOff, bitSz, byteOff) == bitOff + bitSz - 8 * byteOff
  {
  }

  /** The widening loop of `bpf_core_calc_field_relo`. */
  method WidenLoad(bitOff: U32, bitSz: nat, storage: nat) returns (err: int, byteSz: nat, byteOff: nat)
    requires Countable(storage) && bitSz < 0x100
    ensures var r := Widened(bitOff, bitSz, storage);
      if r.None? then err == -E2BIG else err == 0 && r.value == Layout(byteOff, byteSz, bitSz)
  {
    hide Span, AlignDown;
    err, byteSz := 0, storage;
    byteOff := AlignDown(bitOff / 8, byteSz);
    SpanIs(bitOff, bitSz, byteSz);
    while Span(bitOff, bitSz, byteOff) > byteSz * 8
      invariant Countable(byteSz) && byteOff == AlignDown(bitOff / 8, byteSz) && 8 * byteOff <= bitOff
      invariant Span(bitOff, bitSz, byteOff) == bitOff + bitSz - 8 * byteOff
      invariant Widened(bitOff, bitSz, storage) == Widened(bitOff, bitSz, byteSz)
      decreases 8 - byteSz
    {
      if byteSz >= 8 {
        return -E2BIG, byteSz, byteOff;
      }
      byteSz := byteSz * 2;
      byteOff := AlignDown(bitOff / 8, byteSz);
      SpanIs(bitOff, bitSz, byteSz);
    }
  }

  /** BPF_FIELD_LSHIFT_U64 and BPF_FIELD_RSHIFT_U64 */
  function LShift(big: bool, bitOff: nat, l: Layout): int {
    if big then (8 - l.byteSz) * 8 + (bitOff - 8 * l.byteOff) else 64 - (bitOff + l.bitSz - 8 * l.byteOff)
  }

  function RShift(l: Layout): int { 64 - l.bitSz }

  /** For every offset, width and memory: when the load covers the field, loading and
      shifting yields the bits of the field, extended as the flag says. */
  lemma LoadAndShift(big: bool, mem: seq<Octet>, bitOff: nat, l: Layout, signed: bool)
    requires Covers(bitOff, l) && 0 < l.bitSz && l.byteSz <= 8 && l.byteOff + l.byteSz <= |mem|
    ensures 0 <= LShift(big, bitOff, l) < 64 && 0 <= RShift(l) < 64
    ensures FieldBits(big, mem, bitOff, l.bitSz) < Pow2(l.bitSz)
    ensures Shifted(Load(big, mem, l.byteOff, l.byteSz), LShift(big, bitOff, l), RShift(l), signed)
         == Extended(FieldBits(big, mem, bitOff, l.bitSz), l.bitSz, signed)
  {
    hide Shifted, Extended, Load, Little, Big, Pow2;
    var n := 8 * l.byteSz;
    var b := bitOff - 8 * l.byteOff;
    var low: nat := if big then n - b - l.bitSz else b;
    var whole, below: nat := if big then Big(mem) else Little(mem), if big then 8 * (|mem| - l.byteOff - l.byteSz)
        else 8 * l.byteOff;
    LoadIsSlice(big, mem, l.byteOff, l.byteSz);
    SliceOfSlice(whole, below, n, low, l.bitSz);
    ShiftsExtend(Load(big, mem, l.byteOff, l.byteSz), low, l.bitSz, signed);
    assert LShift(big, bitOff, l) == 64 - low - l.bitSz;
    assert below + low == if big then 8 * |mem| - bitOff - l.bitSz else bitOff;
  }

  /** Bits cut out of a cut. */
  lemma SliceOfSlice(w: nat, below: nat, n: nat, low: nat, size: nat)
    requires low + size <= n
    ensures w / Pow2(below) % Pow2(n) / Pow2(low) % Pow2(size) == w / Pow2(below + low) % Pow2(size)
  {
    hide Pow2;
    Pow2Adds(low, n - low);
    Pow2Adds(n - low - size, size);
    Pow2Adds(below, low);
    var z := w / Pow2(below);
    var a, c := Pow2(low), Pow2(n - low);
    ModDiv(z, a, c, Pow2(n));
    InnerSlice(z % Pow2(n) / a, z / a, c, Pow2(n - low - size), Pow2(size));
    DivDiv(w, Pow2(below), a, Pow2(below + low));
  }

  /** Bit `k` of a field is one bit of the memory: on a little-endian machine the `k`-th one on from
      its offset, counted up from the low end of each byte, on a big-endian machine the `k`-th one
      back from its end, counted down from the high end. */
  lemma FieldBit(big: bool, mem: seq<Octet>, off: nat, size: nat, k: nat)
    requires off + size <= 8 * |mem| && k < size
    ensures FieldBits(big, mem, off, size) / Pow2(k) % 2 ==
      if big then mem[(off + size - 1 - k) / 8] / Pow2(7 - (off + size - 1 - k) % 8) % 2
      else mem[(off + k) / 8] / Pow2((off + k) % 8) % 2
  {
    assert Pow2(1) == 2 && Pow2(8) == 0x100;
    hide Pow2;
    var j := if big then off + size - 1 - k else off + k;
    var q, r: nat := j / 8, if big then 7 - j % 8 else j % 8;
    LoadIsSlice(big, mem, q, 1);
    OneByte(big, mem, q);
    if big {
      SliceOfSlice(Big(mem), 8 * |mem| - off - size, size, k, 1);
      SliceOfSlice(Big(mem), 8 * (|mem| - q - 1), 8, r, 1);
      assert 8 * (|mem| - q - 1) + r == 8 * |mem| - off - size + k;
    } else {
      SliceOfSlice(Little(mem), off, size, k, 1);
      SliceOfSlice(Little(mem), 8 * q, 8, r, 1);
      assert 8 * q + r == off + k;
    }
  }

  lemma OneByte(big: bool, mem: seq<Octet>, q: nat)
    requires q < |mem|
    ensures Load(big, mem, q, 1) == mem[q]
  {
    var s := mem[q..q + 1];
    assert s == [mem[q]] && s[1..] == [] && s[..0] == [];
    assert Big(s[..0]) == 0 && Little(s[1..]) == 0;
  }

  /** The field and the 64-bit word it is extended to are the same number, in two's complement if
      they have a sign. */
  lemma SameNumber(bits: nat, size: nat, signed: bool)
    requires 0 < size <= 64 && bits < Pow2(size)
    ensures var word := Extended(bits, size, signed);
      && word < 0x1_0000_0000_0000_0000
      && if signed then
           (if word >= 0x8000_0000_0000_0000 then word - 0x1_0000_0000_0000_0000 else word)
             == if bits >= Pow2(size - 1) then bits - Pow2(size) else bits
         else word == bits
  {
    Halves(size);
    FieldFits(bits, size);
    FieldFits(Pow2(size) - 1, size);
    if bits < Pow2(size - 1) {
      FieldFits(bits, size - 1);
      Pow2Monotone(size - 1, 63);
    }
    hide Pow2;
  }

  lemma Pow2Monotone(a: nat, b: nat)
    requires a <= b
    ensures Pow2(a) <= Pow2(b)
  {
    Pow2Adds(a, b - a);
    AtLeastOnce(Pow2(b - a), Pow2(a));
    hide Pow2;
    Commute(Pow2(b - a), Pow2(a));
  }

  lemma InnerSlice(x: nat, y: nat, c: nat, m: nat, p: nat)
    requires c > 0 && p > 0 && c == m * p && x == y % c
    ensures x % p == y % p
  {
    ModMod(y, p, m, c);
  }

  // ---------------------------------------------------------------- the relocated values

  datatype FieldInfo = ByteOffset | ByteSize | Exists | Signed | LShiftU64 | RShiftU64

  /** `btf_member_bitfield_size` */
  function BitfieldSize(b: Btf, i: Id, k: nat): nat
    requires i < |b.types| && k < |MembersOf(b, i)|
  {
    if b.types[i].info.kflag then MembersOf(b, i)[k].offset / 0x100_0000 % 0x100 else 0
  }

  /** The load for a named member at `bitOff`: widened from the storage of a bitfield, or the
      whole of any other member. */
  ghost function MemberLayout(b: Btf, i: Id, k: nat, bitOff: nat): Option<Layout>
    requires WfBtf(b) && i < |b.types| && k < |MembersOf(b, i)|
  {
    var bitSz := BitfieldSize(b, i, k);
    var size := ResolvedSize(b, MembersOf(b, i)[k].ty);
    var storage := b.types[SkipId(b, MembersOf(b, i)[k].ty)].word;
    if bitSz > 0 then if storage > 0 then Widened(bitOff, bitSz, storage) else None
    else if size < 0 then None
    else Some(Layout(bitOff / 8, size, 8 * size))
  }

  /** Enums are reported as signed, whatever the comment in the code says. */
  ghost predicate MemberSigned(b: Btf, i: Id, k: nat)
    requires WfBtf(b) && i < |b.types| && k < |MembersOf(b, i)|
  {
    SignedType(b.types[SkipId(b, MembersOf(b, i)[k].ty)])
  }

  predicate SignedType(d: Desc) { d.info.kind == ENUM || (d.data.IntData? && d.data.encoding / 0x100_0000 % 2 == 1) }

  /** A member that occupies a machine word, as a bitfield or on its own. */
  ghost predicate Scalar(b: Btf, i: Id, k: nat, bitOff: nat)
    requires WfBtf(b) && i < |b.types| && k < |MembersOf(b, i)|
  {
    if BitfieldSize(b, i, k) > 0 then StorageSize(b.types[SkipId(b, MembersOf(b, i)[k].ty)].word)
    else StorageSize(ResolvedSize(b, MembersOf(b, i)[k].ty)) && bitOff % 8 == 0
  }

  /** The relocated load of such a member covers it, and both shifts stay below the word width. */
  lemma ScalarLayout(b: Btf, i: Id, k: nat, bitOff: nat, big: bool)
    requires WfBtf(b) && i < |b.types| && k < |MembersOf(b, i)| && Scalar(b, i, k, bitOff)
    requires MemberLayout(b, i, k, bitOff).Some?
    ensures var l := MemberLayout(b, i, k, bitOff).value;
      && Covers(bitOff, l) && 0 < l.bitSz && StorageSize(l.byteSz)
      && LShift(big, bitOff, l) % TWO_32 == LShift(big, bitOff, l) < 64 && RShift(l) % TWO_32 == RShift(l) < 64
  {
    hide WfBtf, LShift, RShift, Widened, ResolvedSize;
    ShiftsFit(bitOff, MemberLayout(b, i, k, bitOff).value, big);
  }

  lemma ShiftsFit(bitOff: nat, l: Layout, big: bool)
    requires Covers(bitOff, l) && 0 < l.bitSz && StorageSize(l.byteSz)
    ensures LShift(big, bitOff, l) % TWO_32 == LShift(big, bitOff, l) < 64 && RShift(l) % TWO_32 == RShift(l) < 64
  {
  }

  /** The five relocated values of a member belong together: loading at the relocated offset
      and size and shifting by the relocated counts yields the member. */
  lemma RelocatedRead(b: Btf, i: Id, k: nat, bitOff: nat, big: bool, mem: seq<Octet>, signed: bool)
    requires WfBtf(b) && i < |b.types| && k < |MembersOf(b, i)| && Scalar(b, i, k, bitOff)
    requires MemberLayout(b, i, k, bitOff).Some?
    requires var l := MemberLayout(b, i, k, bitOff).value; l.byteOff + l.byteSz <= |mem|
    ensures var l := MemberLayout(b, i, k, bitOff).value;
      && Covers(bitOff, l) && 0 < l.bitSz <= 64 && FieldBits(big, mem, bitOff, l.bitSz) < Pow2(l.bitSz)
      && Shifted(Load(big, mem, l.byteOff, l.byteSz), LShift(big, bitOff, l) % TWO_32, RShift(l) % TWO_32, signed)
         == Extended(FieldBits(big, mem, bitOff, l.bitSz), l.bitSz, signed)
  {
    hide WfBtf, MemberLayout, Scalar, Shifted, Load, FieldBits, Extended;
    ScalarLayout(b, i, k, bitOff, big);
    LoadAndShift(big, mem, bitOff, MemberLayout(b, i, k, bitOff).value, signed);
  }

  /** The storage of a bitfield is not empty, and its bits can be counted in 32 bits. */
  ghost predicate Stored(b: Btf, i: Id, k: nat)
    requires WfBtf(b) && i < |b.types| && k < |MembersOf(b, i)|
  {
    Countable(b.types[SkipId(b, MembersOf(b, i)[k].ty)].word)
  }

  /** `bpf_core_calc_field_relo` on the last accessor of a spec. The values are put into 32 bits. */
  method CalcFieldRelo(b: Btf, acc: Accessor, bitOff: U32, big: bool, info: FieldInfo)
      returns (err: int, val: int, validate: bool)
    requires WfBtf(b) && acc.ty < |b.types| && (acc.Field? ==> acc.idx < |MembersOf(b, acc.ty)|)
    requires acc.Field? && BitfieldSize(b, acc.ty, acc.idx) > 0 ==> Stored(b, acc.ty, acc.idx)
    requires acc.Field? && info == Signed ==> HasSign(b, acc.ty, acc.idx)
    ensures acc.Field? ==> (err == 0 <==> MemberLayout(b, acc.ty, acc.idx, bitOff).Some? && info != Exists)
    ensures acc.Field? && err != 0 ==>
      err == if MemberLayout(b, acc.ty, acc.idx, bitOff).None? && BitfieldSize(b, acc.ty, acc.idx) > 0 then -E2BIG
          else -EINVAL
    ensures acc.Field? && err == 0 ==>
      var l := MemberLayout(b, acc.ty, acc.idx, bitOff).value;
      match info
      case ByteOffset => val == l.byteOff
      case ByteSize => val == l.byteSz
      case Signed => val == if MemberSigned(b, acc.ty, acc.idx) then 1 else 0
      case LShiftU64 => val == LShift(big, bitOff, l) % TWO_32
      case RShiftU64 => val == RShift(l) % TWO_32
      case Exists => false
    ensures acc.Field? && err == 0 ==>
        (validate <==> BitfieldSize(b, acc.ty, acc.idx) == 0 || info == Signed || info == RShiftU64)
    ensures acc.Index? ==> err == if info == ByteOffset || (info == ByteSize && ResolvedSize(b, acc.ty) >= 0) then 0
        else -EINVAL
    ensures acc.Index? && err == 0 ==> validate && val == if info == ByteOffset then bitOff / 8
        else ResolvedSize(b, acc.ty)
  {
    hide WfBtf, ResolvedSize, MemberLayout, LShift, RShift, MemberSigned, BitfieldSize, SkipId;
    err, val, validate := 0, 0, false;
    if acc.Index? {
      err, val := ElementRelo(b, acc, bitOff, info);
      return err, val, err == 0;
    }
    MemberInRange(b, acc.ty, acc.idx);
    ghost var l: Layout;
    var byteSz: nat, byteOff: nat, bitSz: nat;
    err, byteSz, byteOff, bitSz, l := FieldLoad(b, acc, bitOff);
    if err != 0 {
      return err, 0, false;
    }
    validate := BitfieldSize(b, acc.ty, acc.idx) == 0;
    match info {
      case ByteOffset => val := byteOff;
      case ByteSize => val := byteSz;
      case Signed =>
        var mt := SkipModsAndTypedefs(b, MembersOf(b, acc.ty)[acc.idx].ty);
        assert MemberSigned(b, acc.ty, acc.idx) == SignedType(b.types[mt]) by { SignedIs(b, acc.ty, acc.idx); }
        val := if SignedType(b.types[mt]) then 1 else 0;
        validate := true;
      case LShiftU64 =>
        LeftShiftIs(big, bitOff, l);
        val := if big then (8 - byteSz) * 8 + (bitOff - byteOff * 8) else 64 - (bitOff + bitSz - byteOff * 8);
        val := val % TWO_32;
      case RShiftU64 =>
        RightShiftIs(l);
        val := (64 - bitSz) % TWO_32;
        validate := true;
      case Exists => return -EINVAL, 0, false;
    }
  }

  /** The part of `bpf_core_calc_field_relo` for an array element. */
  method ElementRelo(b: Btf, acc: Accessor, bitOff: U32, info: FieldInfo) returns (err: int, val: int)
    requires WfBtf(b) && acc.Index?
    ensures err == if info == ByteOffset || (info == ByteSize && ResolvedSize(b, acc.ty) >= 0) then 0 else -EINVAL
    ensures err == 0 ==> val == if info == ByteOffset then bitOff / 8 else ResolvedSize(b, acc.ty)
  {
    hide WfBtf, ResolvedSize;
    if info == ByteOffset {
      return 0, bitOff / 8;
    } else if info == ByteSize {
      val := ResolveSize(b, acc.ty);
      return if val < 0 then -EINVAL else 0, val;
    } else {
      return -EINVAL, 0;
    }
  }

  /** The part of `bpf_core_calc_field_relo` that finds the load of a member. */
  method FieldLoad(b: Btf, acc: Accessor, bitOff: U32)
      returns (err: int, byteSz: nat, byteOff: nat, bitSz: nat, ghost l: Layout)
    requires WfBtf(b) && acc.ty < |b.types| && acc.idx < |MembersOf(b, acc.ty)|
    requires BitfieldSize(b, acc.ty, acc.idx) > 0 ==> Stored(b, acc.ty, acc.idx)
    ensures err == 0 <==> MemberLayout(b, acc.ty, acc.idx, bitOff).Some?
    ensures err == 0 ==> MemberLayout(b, acc.ty, acc.idx, bitOff) == Some(l) && l == Layout(byteOff, byteSz, bitSz)
    ensures err != 0 ==> err == if BitfieldSize(b, acc.ty, acc.idx) > 0 then -E2BIG else -EINVAL
  {
    hide WfBtf, ResolvedSize;
    byteSz, byteOff, l := 0, 0, Layout(0, 0, 0);
    MemberInRange(b, acc.ty, acc.idx);
    var m := MembersOf(b, acc.ty)[acc.idx];
    var mt := SkipModsAndTypedefs(b, m.ty);
    bitSz := BitfieldSize(b, acc.ty, acc.idx);
    if bitSz > 0 {
      err, byteSz, byteOff := WidenLoad(bitOff, bitSz, b.types[mt].word);
    } else {
      var sz := ResolveSize(b, m.ty);
      if sz < 0 {
        return -EINVAL, 0, 0, 0, l;
      }
      err, byteSz, byteOff, bitSz := 0, sz, bitOff / 8, sz * 8;
    }
    l := Layout(byteOff, byteSz, bitSz);
  }

  lemma SignedIs(b: Btf, i: Id, k: nat)
    requires WfBtf(b) && i < |b.types| && k < |MembersOf(b, i)|
    ensures MemberSigned(b, i, k) == SignedType(b.types[SkipId(b, MembersOf(b, i)[k].ty)])
  {
  }

  lemma LeftShiftIs(big: bool, bitOff: nat, l: Layout)
    ensures LShift(big, bitOff, l) ==
      if big then (8 - l.byteSz) * 8 + (bitOff - l.byteOff * 8) else 64 - (bitOff + l.bitSz - l.byteOff * 8)
  {
  }

  lemma RightShiftIs(l: Layout)
    ensures RShift(l) == 64 - l.bitSz
  {
  }

  /** The encoding that the code looks at exists: integers have one, and enums are not asked. */
  ghost predicate HasSign(b: Btf, i: Id, k: nat)
    requires WfBtf(b) && i < |b.types| && k < |MembersOf(b, i)|
  {
    var d := b.types[SkipId(b, MembersOf(b, i)[k].ty)];
    d.info.kind == ENUM || d.data.IntData?
  }

  // ---------------------------------------------------------------- a read from relocation to value

  /** The width of a member in bits: that of a bitfield is packed into its offset, any other one
      is as wide as its type. */
  ghost predicate HasWidth(b: Btf, i: Id, k: nat, bits: nat)
    requires WfBtf(b) && i < |b.types| && k < |MembersOf(b, i)|
  {
    var m := MembersOf(b, i)[k];
    if b.types[i].info.kflag && m.offset / 0x100_0000 % 0x100 > 0 then bits == m.offset / 0x100_0000 % 0x100
    else bits == 8 * ResolvedSize(b, m.ty)
  }

  /** A type whose values have a sign: an enum, or an integer with the sign bit in its encoding. */
  predicate HasSignBit(d: Desc) {
    match d.data
    case IntData(encoding) => d.info.kind == ENUM || encoding / 0x100_0000 % 2 != 0
    case _ => d.info.kind == ENUM
  }

  /** The member is the number that so many bits at its offset hold, with a sign if its type has. */
  ghost predicate MemberIs(b: Btf, i: Id, k: nat, bitOff: nat, big: bool, mem: seq<Octet>, bits: nat, val: nat)
    requires WfBtf(b) && i < |b.types| && k < |MembersOf(b, i)|
  {
    && HasWidth(b, i, k, bits) && 0 < bits <= 64 && bitOff + bits <= 8 * |mem|
    && SkipId(b, MembersOf(b, i)[k].ty) < |b.types|
    && var field := FieldBits(big, mem, bitOff, bits);
       field < Pow2(bits) && val == Extended(field, bits, HasSignBit(b.types[SkipId(b, MembersOf(b, i)[k].ty)]))
  }

  /** What a program computes with the five values relocated: it loads the relocated number of
      bytes at the relocated offset, shifts left and right, and gets the member as C reads it. */
  method ReadMember(b: Btf, acc: Accessor, bitOff: U32, big: bool, mem: seq<Octet>) returns (err: int, val: nat)
    requires WfBtf(b) && acc.Field? && acc.ty < |b.types| && acc.idx < |MembersOf(b, acc.ty)|
    requires Scalar(b, acc.ty, acc.idx, bitOff) && HasSign(b, acc.ty, acc.idx) && |mem| >= bitOff / 8 + 16
    ensures err == 0 ==> exists bits: nat :: MemberIs(b, acc.ty, acc.idx, bitOff, big, mem, bits, val)
    ensures err == 0 <==> MemberLayout(b, acc.ty, acc.idx, bitOff).Some?
  {
    hide WfBtf, MemberLayout, Scalar, Shifted, Load, FieldBits, Extended, ResolvedSize, LShift, RShift, MemberSigned,
        BitfieldSize, HasSign, Stored, HasWidth, HasSignBit, SkipId, Pow2;
    ScalarStored(b, acc.ty, acc.idx, bitOff);
    var byteOff, byteSz, sign, lshift, rshift, validate;
    err, byteOff, validate := CalcFieldRelo(b, acc, bitOff, big, ByteOffset);
    if err != 0 {
      return err, 0;
    }
    err, byteSz, validate := CalcFieldRelo(b, acc, bitOff, big, ByteSize);
    err, sign, validate := CalcFieldRelo(b, acc, bitOff, big, Signed);
    err, lshift, validate := CalcFieldRelo(b, acc, bitOff, big, LShiftU64);
    err, rshift, validate := CalcFieldRelo(b, acc, bitOff, big, RShiftU64);
    ghost var l := MemberLayout(b, acc.ty, acc.idx, bitOff).value;
    LoadInside(b, acc.ty, acc.idx, bitOff, big, mem);
    SignIs(b, acc.ty, acc.idx);
    RelocatedRead(b, acc.ty, acc.idx, bitOff, big, mem, sign == 1);
    val := Shifted(Load(big, mem, byteOff, byteSz), lshift, rshift, sign == 1);
    assert MemberIs(b, acc.ty, acc.idx, bitOff, big, mem, l.bitSz, val);
  }

  lemma ScalarStored(b: Btf, i: Id, k: nat, bitOff: nat)
    requires WfBtf(b) && i < |b.types| && k < |MembersOf(b, i)| && Scalar(b, i, k, bitOff)
    ensures BitfieldSize(b, i, k) > 0 ==> Stored(b, i, k)
  {
    hide WfBtf, SkipId, ResolvedSize;
  }

  lemma SignIs(b: Btf, i: Id, k: nat)
    requires WfBtf(b) && i < |b.types| && k < |MembersOf(b, i)| && HasSign(b, i, k)
    ensures MemberSigned(b, i, k) == HasSignBit(b.types[SkipId(b, MembersOf(b, i)[k].ty)])
  {
    hide WfBtf, SkipId;
  }

  /** The relocated load lies in the memory and covers the member. */
  lemma LoadInside(b: Btf, i: Id, k: nat, bitOff: nat, big: bool, mem: seq<Octet>)
    requires WfBtf(b) && i < |b.types| && k < |MembersOf(b, i)| && Scalar(b, i, k, bitOff)
    requires MemberLayout(b, i, k, bitOff).Some? && |mem| >= bitOff / 8 + 16
    ensures var l := MemberLayout(b, i, k, bitOff).value;
      && l.byteOff + l.byteSz <= |mem| && 0 < l.bitSz <= 64 && bitOff + l.bitSz <= 8 * |mem|
          && HasWidth(b, i, k, l.bitSz)
      && 0 <= LShift(big, bitOff, l) % TWO_32 && 0 <= RShift(l) % TWO_32
  {
    hide WfBtf, LShift, RShift, ResolvedSize, SkipId, Widened;
    ScalarLayout(b, i, k, bitOff, big);
  }

  // ---------------------------------------------------------------- the macros

  /** The eight bytes of a variable, as a number. */
  function WordOf(big: bool, bytes: seq<Octet>): nat { if big then Big(bytes) else Little(bytes) }

  function Zeros(n: nat): seq<Octet> { seq(n, _ => 0) }

  lemma {:induction false} LittlePadded(bytes: seq<Octet>, n: nat)
    ensures Little(bytes + Zeros(n)) == Little(bytes)
  {
    if bytes == [] {
      assert bytes + Zeros(n) == Zeros(n);
      if n > 0 {
        LittlePadded([], n - 1);
        assert [] + Zeros(n - 1) == Zeros(n)[1..];
      }
    } else {
      LittlePadded(bytes[1..], n);
      assert (bytes + Zeros(n))[1..] == bytes[1..] + Zeros(n);
    }
  }

  lemma {:induction false} BigPadded(n: nat, bytes: seq<Octet>)
    ensures Big(Zeros(n) + bytes) == Big(bytes)
  {
    var all := Zeros(n) + bytes;
    if bytes == [] {
      assert all == Zeros(n);
      if n > 0 {
        BigPadded(n - 1, []);
        assert Zeros(n - 1) + [] == all[..|all| - 1];
      }
    } else {
      BigPadded(n, bytes[..|bytes| - 1]);
      assert all[..|all| - 1] == Zeros(n) + bytes[..|bytes| - 1];
    }
  }

  /** BPF_CORE_READ_BITFIELD_PROBED: the bytes are copied to the low-order end of a zeroed
      variable, which is then shifted up and down. */
  method ReadProbed(big: bool, mem: seq<Octet>, bitOff: nat, l: Layout, signed: bool) returns (val: nat)
    requires Covers(bitOff, l) && 0 < l.bitSz && l.byteSz <= 8 && l.byteOff + l.byteSz <= |mem|
    ensures FieldBits(big, mem, bitOff, l.bitSz) < Pow2(l.bitSz)
    ensures val == Extended(FieldBits(big, mem, bitOff, l.bitSz), l.bitSz, signed)
  {
    hide Little, Big, Pow2, FieldBits, Extended;
    var bytes := mem[l.byteOff..l.byteOff + l.byteSz];
    var dst := if big then Zeros(8 - l.byteSz) + bytes else bytes + Zeros(8 - l.byteSz);
    LittlePadded(bytes, 8 - l.byteSz);
    BigPadded(8 - l.byteSz, bytes);
    LoadAndShift(big, mem, bitOff, l, signed);
    val := WordOf(big, dst);
    val := ShiftLeft(val, LShift(big, bitOff, l));
    if signed {
      val := ShiftRight(val, RShift(l), true) % TWO_64;
    } else {
      val := ShiftRight(val, RShift(l), false) % TWO_64;
    }
  }

  /** BPF_CORE_READ_BITFIELD: the cases of its switch fall through, so whatever the size of the
      load eight bytes are read in the end. */
  method ReadDirect(big: bool, mem: seq<Octet>, bitOff: nat, l: Layout, signed: bool) returns (val: nat)
    requires Covers(bitOff, l) && 0 < l.bitSz && StorageSize(l.byteSz) && l.byteOff + 8 <= |mem|
    ensures 0 <= LShift(big, bitOff, l) && 0 <= RShift(l)
    ensures val == Shifted(Load(big, mem, l.byteOff, 8), LShift(big, bitOff, l), RShift(l), signed)
  {
    hide Little, Big, Pow2, FieldBits, Extended;
    LoadAndShift(big, mem, bitOff, l, signed);
    val := 0;
    if l.byteSz <= 1 { val := Load(big, mem, l.byteOff, 1); }
    if l.byteSz <= 2 { val := Load(big, mem, l.byteOff, 2); }
    if l.byteSz <= 4 { val := Load(big, mem, l.byteOff, 4); }
    val := Load(big, mem, l.byteOff, 8);
    val := ShiftLeft(val, LShift(big, bitOff, l));
    val := ShiftRight(val, RShift(l), signed) % TWO_64;
  }

  /** On a little-endian machine the longer load makes no difference. */
  lemma DirectLittle(mem: seq<Octet>, bitOff: nat, l: Layout, signed: bool)
    requires Covers(bitOff, l) && 0 < l.bitSz && StorageSize(l.byteSz) && l.byteOff + 8 <= |mem|
    ensures FieldBits(false, mem, bitOff, l.bitSz) < Pow2(l.bitSz)
    ensures 0 <= LShift(false, bitOff, l) && 0 <= RShift(l)
    ensures Shifted(Load(false, mem, l.byteOff, 8), LShift(false, bitOff, l), RShift(l), signed)
         == Extended(FieldBits(false, mem, bitOff, l.bitSz), l.bitSz, signed)
  {
    hide Shifted, Extended, Load, FieldBits, Pow2;
    LoadAndShift(false, mem, bitOff, l, signed);
    LoadAndShift(false, mem, bitOff, l.(byteSz := 8), signed);
  }

  /** On a big-endian machine the macro reads a field as many bytes further on as the load
      should have been shorter. */
  lemma DirectBig(mem: seq<Octet>, bitOff: nat, l: Layout, signed: bool)
    requires Covers(bitOff, l) && 0 < l.bitSz && StorageSize(l.byteSz) && l.byteOff + 8 <= |mem|
    ensures var off := bitOff + 8 * (8 - l.byteSz);
      && off + l.bitSz <= 8 * |mem| && FieldBits(true, mem, off, l.bitSz) < Pow2(l.bitSz)
      && 0 <= LShift(true, bitOff, l) && 0 <= RShift(l)
      && Shifted(Load(true, mem, l.byteOff, 8), LShift(true, bitOff, l), RShift(l), signed)
         == Extended(FieldBits(true, mem, off, l.bitSz), l.bitSz, signed)
  {
    hide Shifted, Extended, Load, FieldBits, Pow2;
    var off, wide := bitOff + 8 * (8 - l.byteSz), l.(byteSz := 8);
    LoadAndShift(true, mem, bitOff, l, signed);
    LoadAndShift(true, mem, off, wide, signed);
    assert LShift(true, off, wide) == LShift(true, bitOff, l);
  }

  /** The macro yields the field from this memory, on a big-endian machine. */
  ghost predicate ReadsRight(mem: seq<Octet>, bitOff: nat, l: Layout, signed: bool)
    requires Covers(bitOff, l) && 0 < l.bitSz && StorageSize(l.byteSz)
  {
    && l.byteOff + 8 <= |mem| && 0 <= LShift(true, bitOff, l) && 0 <= RShift(l)
    && FieldBits(true, mem, bitOff, l.bitSz) < Pow2(l.bitSz)
    && Shifted(Load(true, mem, l.byteOff, 8), LShift(true, bitOff, l), RShift(l), signed)
       == Extended(FieldBits(true, mem, bitOff, l.bitSz), l.bitSz, signed)
  }

  /** The macro is right for all memories exactly if the load is eight bytes long. */
  lemma DirectBigExact(bitOff: nat, l: Layout, signed: bool)
    requires Covers(bitOff, l) && 0 < l.bitSz && StorageSize(l.byteSz)
    ensures l.byteSz == 8 <==> forall mem: seq<Octet> :: l.byteOff + 8 <= |mem| ==> ReadsRight(mem, bitOff, l, signed)
  {
    hide ReadsRight;
    if l.byteSz == 8 {
      forall mem: seq<Octet> | l.byteOff + 8 <= |mem| ensures ReadsRight(mem, bitOff, l, signed) {
        DirectBigWide(mem, bitOff, l, signed);
      }
    } else {
      var mem := DirectBigFails(bitOff, l, signed);
      assert !ReadsRight(mem, bitOff, l, signed);
    }
  }

  lemma DirectBigWide(mem: seq<Octet>, bitOff: nat, l: Layout, signed: bool)
    requires Covers(bitOff, l) && 0 < l.bitSz && l.byteSz == 8 && l.byteOff + 8 <= |mem|
    ensures ReadsRight(mem, bitOff, l, signed)
  {
    hide Shifted, Extended, Load, FieldBits, Pow2;
    DirectBig(mem, bitOff, l, signed);
  }

  /** The bytes of a number below `2^(8n)`, the most significant one first. */
  function BytesOf(x: nat, n: nat): (mem: seq<Octet>)
    ensures |mem| == n
  {
    if n == 0 then [] else BytesOf(x / 0x100, n - 1) + [x % 0x100]
  }

  lemma {:induction false} BytesRead(x: nat, n: nat)
    requires x < Pow2(8 * n)
    ensures Big(BytesOf(x, n)) == x
  {
    if n > 0 {
      Pow8();
      Pow2Adds(8, 8 * (n - 1));
      BelowQuotient(x, 0x100, Pow2(8 * (n - 1)));
      BytesRead(x / 0x100, n - 1);
      assert BytesOf(x, n)[..n - 1] == BytesOf(x / 0x100, n - 1);
    }
  }

  lemma BelowQuotient(x: nat, d: nat, p: nat)
    requires d > 0 && x < d * p
    ensures x / d < p
  {
    Divided(x, d);
  }

  /** With only the last bit of the field set, a shorter load makes the macro read zeros. */
  lemma DirectBigFails(bitOff: nat, l: Layout, signed: bool) returns (mem: seq<Octet>)
    requires Covers(bitOff, l) && 0 < l.bitSz && StorageSize(l.byteSz) && l.byteSz != 8
    ensures l.byteOff + 8 <= |mem| && !ReadsRight(mem, bitOff, l, signed)
  {
    hide Shifted, Load, Big, Little, Pow2, BytesOf;
    var n := l.byteOff + 8;
    var low := 8 * n - bitOff - l.bitSz;
    var shift := 8 * (8 - l.byteSz);
    mem := BytesOf(Pow2(low), n);
    Pow2Grows(low, 8 * n);
    BytesRead(Pow2(low), n);
    OneBit(low, 0, l.bitSz);
    OneBit(low - shift, shift, l.bitSz);
    assert FieldBits(true, mem, bitOff, l.bitSz) == 1;
    assert FieldBits(true, mem, bitOff + shift, l.bitSz) == 0;
    DirectBig(mem, bitOff, l, signed);
    Halves(l.bitSz);
    if l.bitSz == 1 { assert Pow2(0) == 1 && Pow2(1) == 2 by { SmallPowers(); } }
  }

  lemma SmallPowers()
    ensures Pow2(0) == 1 && Pow2(1) == 2
  {
  }

  lemma Pow2Grows(a: nat, b: nat)
    requires a < b
    ensures Pow2(a) < Pow2(b)
  {
    Pow2Adds(a, b - a);
    PowerAtLeast(b - a);
    hide Pow2;
    Commute(Pow2(a), Pow2(b - a));
    Distribute(Pow2(b - a) - 1, 1, Pow2(a));
    AtLeastOnce(Pow2(b - a) - 1, Pow2(a));
  }

  lemma PowerAtLeast(k: nat)
    requires k > 0
    ensures Pow2(k) >= 2
  {
  }

  /** The bits that a number with a single one shows `low` bits up, `up` bits below that one. */
  lemma OneBit(low: nat, up: nat, size: nat)
    requires size > 0 && (up == 0 || size <= up)
    ensures Pow2(low + up) / Pow2(low) % Pow2(size) == if up == 0 then 1 else 0
  {
    Pow2Adds(up, low);
    QuotientUnique(Pow2(low + up), Pow2(low), Pow2(up), 0);
    PowerAtLeast(size);
    if up == 0 {
      SmallPowers();
      SmallRemainder(Pow2(size));
    } else {
      Pow2Adds(up - size, size);
      QuotientUnique(Pow2(up), Pow2(size), Pow2(up - size), 0);
    }
  }

  lemma SmallRemainder(d: nat)
    requires d >= 2
    ensures 1 % d == 1
  {
  }
}
