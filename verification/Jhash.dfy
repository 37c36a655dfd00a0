/** The Jenkins hash (headers/jhash.h) over bytes, over words, and over one, two or three words. */
module Jhash {
  import opened Basics
  import opened Words

  const INITVAL: U32 := 0xdead_beef

  /** Exclusive or, bit by bit. */
  function Xor(a: nat, b: nat): nat {
    if a == 0 && b == 0 then 0 else (a % 2 + b % 2) % 2 + 2 * Xor(a / 2, b / 2)
  }

  /** Inclusive or, bit by bit. */
  function Or(a: nat, b: nat): nat {
    if a == 0 && b == 0 then 0 else (if a % 2 + b % 2 > 0 then 1 else 0) + 2 * Or(a / 2, b / 2)
  }

  lemma {:induction false} BitsFit(a: nat, b: nat, n: nat)
    requires a < Pow2(n) && b < Pow2(n)
    ensures Xor(a, b) < Pow2(n) && Or(a, b) < Pow2(n)
  {
    if n > 0 {
      BitsFit(a / 2, b / 2, n - 1);
    }
  }

  function Xor32(a: U32, b: U32): U32 {
    Pow2Words();
    BitsFit(a, b, 32);
    Xor(a, b)
  }

  function Or32(a: U32, b: U32): U32 {
    Pow2Words();
    BitsFit(a, b, 32);
    Or(a, b)
  }

  function ShiftUp(w: nat, k: nat): U32 { w * Pow2(k) % TWO_32 }

  function ShiftDown(w: U32, k: nat): U32 {
    hide Pow2;
    Quotient(w, Pow2(k))
  }

  function Quotient(w: U32, p: nat): U32
    requires p > 0
  {
    ShrinkingShift(w, p);
    w / p
  }

  lemma ShrinkingShift(w: nat, p: nat)
    requires p > 0
    ensures w / p <= w
  {
    Divided(w, p);
    if w / p > w {
      Distribute(w / p - w, w, p);
      AtLeastOnce(w / p - w, p);
      Distribute(p - 1, 1, w);
    }
  }

  /** `rol32` */
  function Rol32(word: U32, shift: nat): U32
    requires 0 < shift < 32
  {
    Or32(ShiftUp(word, shift), ShiftDown(word, 32 - shift))
  }

  datatype State = State(a: U32, b: U32, c: U32)

  /** One line of `__jhash_mix`: `x -= z; x ^= rol32(z, k); z += y`. */
  function MixStep(x: U32, y: U32, z: U32, k: nat): (U32, U32)
    requires 0 < k < 32
  {
    (Xor32(Sub32(x, z), Rol32(z, k)), Add32(z, y))
  }

  /** `__jhash_mix` */
  function Mix(s: State): State {
    var (a1, c1) := MixStep(s.a, s.b, s.c, 4);
    var (b1, a2) := MixStep(s.b, c1, a1, 6);
    var (c2, b2) := MixStep(c1, a2, b1, 8);
    var (a3, c3) := MixStep(a2, b2, c2, 16);
    var (b3, a4) := MixStep(b2, c3, a3, 19);
    var (c4, b4) := MixStep(c3, a4, b3, 4);
    State(a4, b4, c4)
  }

  /** One line of `__jhash_final`: `x ^= y; x -= rol32(y, k)`. */
  function FinalStep(x: U32, y: U32, k: nat): U32
    requires 0 < k < 32
  {
    Sub32(Xor32(x, y), Rol32(y, k))
  }

  /** `__jhash_final` */
  function Final(s: State): State {
    var c1 := FinalStep(s.c, s.b, 14);
    var a1 := FinalStep(s.a, c1, 11);
    var b1 := FinalStep(s.b, a1, 25);
    var c2 := FinalStep(c1, b1, 16);
    var a2 := FinalStep(a1, c2, 4);
    var b2 := FinalStep(b1, a2, 14);
    var c3 := FinalStep(c2, b2, 24);
    State(a2, b2, c3)
  }

  /** Three words added to the state. */
  function Plus(s: State, x: nat, y: nat, z: nat): State { State(Add32(s.a, x), Add32(s.b, y), Add32(s.c, z)) }

  /** `length` counts bytes; `length << 2` of the word form is four times the words. */
  function Initial(length: nat, initval: U32): State
    requires length < TWO_32
  {
    var x := Add32(Add32(INITVAL, length), initval);
    State(x, x, x)
  }

  // ---------------------------------------------------------------- the hash of a key

  /** Byte `j` of the key, zero behind its end. */
  function ByteAt(k: seq<Octet>, j: nat): Octet { if j < |k| then k[j] else 0 }

  /** The little-endian word at `j`, padded with zeros. */
  function WordAt(k: seq<Octet>, j: nat): nat {
    Join(ByteAt(k, j), ByteAt(k, j + 1), ByteAt(k, j + 2), ByteAt(k, j + 3))
  }

  function Join(p: nat, q: nat, r: nat, s: nat): nat { p + 0x100 * q + 0x1_0000 * r + 0x100_0000 * s }

  /** Twelve bytes at a time; the last block, which is never empty unless the key is, is
      padded and finished off. */
  function HashBytes(s: State, k: seq<Octet>): U32
    decreases |k|
  {
    var t := Plus(s, WordAt(k, 0), WordAt(k, 4), WordAt(k, 8));
    if |k| > 12 then HashBytes(Mix(t), k[12..])
    else if k == [] then s.c
    else Final(t).c
  }

  /** Three words at a time; missing words of the last block add nothing. */
  function HashWords(s: State, k: seq<U32>): U32
    decreases |k|
  {
    if |k| > 3 then HashWords(Mix(Plus(s, k[0], k[1], k[2])), k[3..])
    else if k == [] then s.c
    else Final(Plus(s, k[0], if |k| > 1 then k[1] else 0, if |k| > 2 then k[2] else 0)).c
  }

  function JhashOf(k: seq<Octet>, initval: U32): U32
    requires |k| < TWO_32
  {
    HashBytes(Initial(|k|, initval), k)
  }

  function Jhash2Of(k: seq<U32>, initval: U32): U32
    requires 4 * |k| < TWO_32
  {
    HashWords(Initial(4 * |k|, initval), k)
  }

  // ---------------------------------------------------------------- words as bytes

  /** Byte `n` of a word. */
  function Byte(w: nat, n: nat): Octet { if n == 0 then w % 0x100 else Byte(w / 0x100, n - 1) }

  /** The bytes of a list of words on a little-endian machine. */
  function BytesOf(ws: seq<U32>): (r: seq<Octet>)
    ensures |r| == 4 * |ws|
  {
    if ws == [] then []
    else [Byte(ws[0], 0), Byte(ws[0], 1), Byte(ws[0], 2), Byte(ws[0], 3)] + BytesOf(ws[1..])
  }

  lemma FourBytes(w: U32)
    ensures Join(Byte(w, 0), Byte(w, 1), Byte(w, 2), Byte(w, 3)) == w
  {
    hide Byte;
    LowByte(w);
    LowByte(w / 0x100);
    LowByte(w / 0x100 / 0x100);
    LastByte(w / 0x100 / 0x100 / 0x100);
  }

  /** A word is its lowest byte and the word above it. */
  lemma LowByte(w: nat)
    ensures w == 0x100 * (w / 0x100) + Byte(w, 0)
    ensures forall n: nat {:trigger Byte(w / 0x100, n)} :: Byte(w, n + 1) == Byte(w / 0x100, n)
  {
  }

  lemma LastByte(w: nat)
    ensures w < 0x100 ==> Byte(w, 0) == w
  {
  }

  lemma NoBytes()
    ensures Join(0, 0, 0, 0) == 0
  {
  }

  /** Reading the bytes of words gives the words, and zeros behind them. */
  lemma {:induction false} WordOfBytes(ws: seq<U32>, i: nat)
    ensures WordAt(BytesOf(ws), 4 * i) == if i < |ws| then ws[i] else 0
  {
    hide Join, Byte;
    NoBytes();
    var bs := BytesOf(ws);
    if i < |ws| {
      if i == 0 {
        FourBytes(ws[0]);
        assert bs[0] == Byte(ws[0], 0) && bs[1] == Byte(ws[0], 1) && bs[2] == Byte(ws[0], 2) && bs[3] == Byte(ws[0], 3);
      } else {
        WordOfBytes(ws[1..], i - 1);
        var rest := BytesOf(ws[1..]);
        assert bs[4 * i] == rest[4 * (i - 1)] && bs[4 * i + 1] == rest[4 * (i - 1) + 1];
        assert bs[4 * i + 2] == rest[4 * (i - 1) + 2] && bs[4 * i + 3] == rest[4 * (i - 1) + 3];
      }
    }
  }

  lemma {:induction false} BytesFrom(ws: seq<U32>, n: nat)
    requires n <= |ws|
    ensures BytesOf(ws)[4 * n..] == BytesOf(ws[n..])
  {
    hide Byte;
    if n == 0 {
      assert ws[0..] == ws;
    } else {
      BytesFrom(ws[1..], n - 1);
      assert ws[1..][n - 1..] == ws[n..];
      assert BytesOf(ws)[4..] == BytesOf(ws[1..]);
      assert BytesOf(ws)[4 * n..] == BytesOf(ws)[4..][4 * (n - 1)..];
    }
  }

  lemma {:induction false} SameBlocks(s: State, ws: seq<U32>)
    ensures HashBytes(s, BytesOf(ws)) == HashWords(s, ws)
    decreases |ws|
  {
    hide Mix, Final, WordAt, BytesOf, Plus;
    WordOfBytes(ws, 0);
    WordOfBytes(ws, 1);
    WordOfBytes(ws, 2);
    if |ws| > 3 {
      BytesFrom(ws, 3);
      SameBlocks(Mix(Plus(s, ws[0], ws[1], ws[2])), ws[3..]);
    }
  }

  /** On a little-endian machine hashing words as words or as bytes makes no difference. */
  lemma BytesAndWords(ws: seq<U32>, initval: U32)
    requires 4 * |ws| < TWO_32
    ensures JhashOf(BytesOf(ws), initval) == Jhash2Of(ws, initval)
  {
    hide HashBytes, HashWords, BytesOf, Initial;
    SameBlocks(Initial(4 * |ws|, initval), ws);
  }

  // ---------------------------------------------------------------- the code

  /** `jhash` */
  method Hash(key: seq<Octet>, initval: U32) returns (h: U32)
    requires |key| < TWO_32
    ensures h == JhashOf(key, initval)
  {
    hide Mix, Final, WordAt, Add32;
    var k := key;
    var x := Add32(Add32(INITVAL, |key|), initval);
    var s := State(x, x, x);
    while |k| > 12
      invariant HashBytes(s, k) == JhashOf(key, initval)
    {
      s := s.(a := Add32(s.a, WordAt(k, 0)));
      s := s.(b := Add32(s.b, WordAt(k, 4)));
      s := s.(c := Add32(s.c, WordAt(k, 8)));
      s := Mix(s);
      k := k[12..];
    }
    var c := AddBytes(s.c, k, 8);
    var b := AddBytes(s.b, k, 4);
    var a := AddBytes(s.a, k, 0);
    if |k| >= 1 {
      c := Final(State(a, b, c)).c;
    } else {
      assert c == s.c;
    }
    h := c;
  }

  /** The four cases of the switch that belong to one word; they fall through. */
  method AddBytes(x: U32, k: seq<Octet>, j: nat) returns (r: U32)
    ensures r == Add32(x, WordAt(k, j))
    ensures |k| <= j ==> r == x
  {
    hide Add32, Join;
    r := x;
    var b3: nat, b2: nat, b1: nat, b0: nat := ByteAt(k, j + 3), ByteAt(k, j + 2), ByteAt(k, j + 1), ByteAt(k, j);
    if |k| >= j + 4 { r := Add32(r, 0x100_0000 * b3); }
    if |k| >= j + 3 { r := Add32(r, 0x1_0000 * b2); }
    if |k| >= j + 2 { r := Add32(r, 0x100 * b1); }
    if |k| >= j + 1 { r := Add32(r, b0); }
    AddZero(x);
    SumOfBytes(x, b0, b1, b2, b3);
  }

  lemma SumOfBytes(x: U32, p: nat, q: nat, r: nat, s: nat)
    ensures Add32(Add32(Add32(Add32(x, 0x100_0000 * s), 0x1_0000 * r), 0x100 * q), p) == Add32(x, Join(p, q, r, s))
  {
    hide Add32;
    AddTwice(x, 0x100_0000 * s, 0x1_0000 * r);
    AddTwice(x, 0x100_0000 * s + 0x1_0000 * r, 0x100 * q);
    AddTwice(x, 0x100_0000 * s + 0x1_0000 * r + 0x100 * q, p);
  }

  /** `jhash2` */
  method Hash2(key: seq<U32>, initval: U32) returns (h: U32)
    requires 4 * |key| < TWO_32
    ensures h == Jhash2Of(key, initval)
  {
    hide Mix, Final, Add32;
    var k := key;
    var x := Add32(Add32(INITVAL, 4 * |key|), initval);
    var s := State(x, x, x);
    while |k| > 3
      invariant HashWords(s, k) == Jhash2Of(key, initval)
    {
      s := s.(a := Add32(s.a, k[0]));
      s := s.(b := Add32(s.b, k[1]));
      s := s.(c := Add32(s.c, k[2]));
      s := Mix(s);
      k := k[3..];
    }
    AddZero(s.b);
    AddZero(s.c);
    if |k| >= 3 { s := s.(c := Add32(s.c, k[2])); }
    if |k| >= 2 { s := s.(b := Add32(s.b, k[1])); }
    if |k| >= 1 {
      s := s.(a := Add32(s.a, k[0]));
      s := Final(s);
    }
    h := s.c;
  }

  lemma AddZero(x: U32)
    ensures Add32(x, 0) == x
  {
  }

  /** `__jhash_nwords` */
  function NWords(a: U32, b: U32, c: U32, initval: U32): U32 {
    Final(State(Add32(a, initval), Add32(b, initval), Add32(c, initval))).c
  }

  function Jhash3Words(a: U32, b: U32, c: U32, initval: U32): U32 {
    NWords(a, b, c, Add32(Add32(initval, INITVAL), 12))
  }

  function Jhash2Words(a: U32, b: U32, initval: U32): U32 { NWords(a, b, 0, Add32(Add32(initval, INITVAL), 8)) }

  function Jhash1Word(a: U32, initval: U32): U32 { NWords(a, 0, 0, Add32(Add32(initval, INITVAL), 4)) }

  /** The short forms hash arrays of their lengths. */
  lemma ShortForms(a: U32, b: U32, c: U32, initval: U32)
    ensures Jhash3Words(a, b, c, initval) == Jhash2Of([a, b, c], initval)
    ensures Jhash2Words(a, b, initval) == Jhash2Of([a, b], initval)
    ensures Jhash1Word(a, initval) == Jhash2Of([a], initval)
  {
    hide Mix, Final, Add32;
    Commutes(a, initval, 12);
    Commutes(b, initval, 12);
    Commutes(c, initval, 12);
    Commutes(a, initval, 8);
    Commutes(b, initval, 8);
    Commutes(0, initval, 8);
    Commutes(a, initval, 4);
    Commutes(0, initval, 4);
  }

  lemma Commutes(x: U32, initval: U32, n: nat)
    ensures Add32(x, Add32(Add32(initval, INITVAL), n)) == Add32(Add32(Add32(INITVAL, n), initval), x)
  {
    Swap(initval, INITVAL);
    Swap(x, Add32(Add32(initval, INITVAL), n));
    hide Add32;
    AddTwice(INITVAL, initval, n);
    AddTwice(INITVAL, n, initval);
  }

  lemma Swap(x: nat, y: nat)
    ensures Add32(x, y) == Add32(y, x)
  {
  }
}
