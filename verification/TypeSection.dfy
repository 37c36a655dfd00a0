/** The type section as bytes: reading descriptors (`btf_parse_type_sec`), and the in-place
    compaction of `btf_dedup_compact_types`, which moves kept descriptors over dropped ones. */
module TypeSection {
  import opened Basics
  import opened BtfTypes
  import opened CanonMap
  import opened Meaning

  const EINVAL: int := 22

  // ---------------------------------------------------------------- reading descriptors

  /** A little-endian 32-bit word. */
  function U32(mem: seq<Octet>, p: nat): nat
    requires p + 4 <= |mem|
  {
    mem[p] as int + 0x100 * mem[p + 1] as int + 0x1_0000 * mem[p + 2] as int + 0x100_0000 * mem[p + 3] as int
  }

  /** `btf_kind`: bits 24 to 27 of the second word. */
  function KindAt(mem: seq<Octet>, p: nat): nat
    requires p + 8 <= |mem|
  {
    mem[p + 7] % 16
  }

  /** `btf_vlen`: the low half of the second word. */
  function VlenAt(mem: seq<Octet>, p: nat): nat
    requires p + 8 <= |mem|
  {
    mem[p + 4] as int + 0x100 * mem[p + 5] as int
  }

  /** `btf_type_size` */
  function SizeAt(mem: seq<Octet>, p: nat): int
    requires p + 8 <= |mem|
  {
    var kind, vlen := KindAt(mem, p), VlenAt(mem, p);
    if kind == 7 || kind == 10 || kind == 9 || kind == 11 || kind == 2 || kind == 8 || kind == 12 then 12
    else if kind == 1 then 12 + 4
    else if kind == 6 then 12 + vlen * 8
    else if kind == 3 then 12 + 12
    else if kind == 4 || kind == 5 then 12 + vlen * 12
    else if kind == 13 then 12 + vlen * 8
    else if kind == 14 then 12 + 4
    else if kind == 15 then 12 + vlen * 12
    else -EINVAL
  }

  /** The descriptors at `offs` follow each other from `lo` to `hi` without gaps. */
  ghost predicate Tiled(mem: seq<Octet>, lo: nat, hi: nat, offs: seq<nat>)
    decreases |offs|
  {
    if offs == [] then lo == hi
    else
      && offs[0] == lo && lo + 8 <= |mem| && SizeAt(mem, lo) > 0
      && lo + SizeAt(mem, lo) <= hi <= |mem|
      && Tiled(mem, lo + SizeAt(mem, lo), hi, offs[1..])
  }

  /** The tiling of a stretch of memory is unique: there is one way to read it. */
  lemma {:induction false} TiledUnique(mem: seq<Octet>, lo: nat, hi: nat, a: seq<nat>, b: seq<nat>)
    requires Tiled(mem, lo, hi, a) && Tiled(mem, lo, hi, b)
    ensures a == b
    decreases |a|
  {
    hide SizeAt;
    if a != [] && b != [] {
      TiledUnique(mem, lo + SizeAt(mem, lo), hi, a[1..], b[1..]);
      assert a == [a[0]] + a[1..] && b == [b[0]] + b[1..];
    }
  }

  lemma {:induction false} TiledAppend(mem: seq<Octet>, lo: nat, mid: nat, hi: nat, a: seq<nat>, b: seq<nat>)
    requires Tiled(mem, lo, mid, a) && Tiled(mem, mid, hi, b) && mid <= hi <= |mem|
    ensures Tiled(mem, lo, hi, a + b)
    decreases |a|
  {
    hide SizeAt;
    if a == [] {
      assert a + b == b;
    } else {
      TiledAppend(mem, lo + SizeAt(mem, lo), mid, hi, a[1..], b);
      assert (a + b)[1..] == a[1..] + b;
    }
  }

  lemma SizeNotZero(mem: seq<Octet>, p: nat)
    requires p + 8 <= |mem|
    ensures SizeAt(mem, p) >= 12 || SizeAt(mem, p) == -EINVAL
  {
  }

  /** Descriptors one behind the other from `lo` to `end`, each of which begins before `hi`. */
  ghost predicate Walk(mem: seq<Octet>, lo: nat, hi: nat, offs: seq<nat>, end: nat)
    decreases |offs|
  {
    if offs == [] then end == lo
    else
      && offs[0] == lo && lo < hi && lo + 8 <= |mem| && SizeAt(mem, lo) > 0
      && Walk(mem, lo + SizeAt(mem, lo), hi, offs[1..], end)
  }

  /** The headers that a walk to `hi` looks at are inside the memory. */
  ghost predicate Readable(mem: seq<Octet>, lo: nat, hi: nat)
    decreases if lo < hi then hi - lo else 0
  {
    lo < hi ==> lo + 8 <= |mem| && (SizeAt(mem, lo) > 0 ==> Readable(mem, lo + SizeAt(mem, lo), hi))
  }

  lemma {:induction false} EnoughBehind(mem: seq<Octet>, lo: nat, hi: nat)
    requires hi + 8 <= |mem|
    ensures Readable(mem, lo, hi)
    decreases if lo < hi then hi - lo else 0
  {
    hide SizeAt;
    if lo < hi && SizeAt(mem, lo) > 0 {
      EnoughBehind(mem, lo + SizeAt(mem, lo), hi);
    }
  }

  /** A tiling is a walk that ends at the end of the section, and the other way round. */
  lemma {:induction false} TiledWalks(mem: seq<Octet>, lo: nat, hi: nat, offs: seq<nat>)
    requires hi <= |mem|
    ensures Tiled(mem, lo, hi, offs) <==> Walk(mem, lo, hi, offs, hi)
    ensures Tiled(mem, lo, hi, offs) ==> Readable(mem, lo, hi)
    decreases |offs|
  {
    hide SizeAt;
    if offs != [] && lo + 8 <= |mem| && SizeAt(mem, lo) > 0 {
      TiledWalks(mem, lo + SizeAt(mem, lo), hi, offs[1..]);
    }
  }

  lemma {:induction false} WalkOn(mem: seq<Octet>, lo: nat, hi: nat, offs: seq<nat>, next: nat)
    requires Walk(mem, lo, hi, offs, next) && next < hi && next + 8 <= |mem| && SizeAt(mem, next) > 0
    ensures Walk(mem, lo, hi, offs + [next], next + SizeAt(mem, next))
    decreases |offs|
  {
    hide SizeAt;
    if offs == [] {
      assert [next][1..] == [];
    } else {
      WalkOn(mem, lo + SizeAt(mem, lo), hi, offs[1..], next);
      assert (offs + [next])[1..] == offs[1..] + [next];
    }
  }

  /** `btf_parse_type_sec` on `[lo, hi)`. It accepts exactly the sections that can be walked from
      descriptor to descriptor until one ends at or behind `hi`: the code does not look whether
      the last one stays inside the section. `end` is where it ends. */
  method ParseTypeSec(mem: array<Octet>, lo: nat, hi: nat) returns (err: int, offs: seq<nat>, ghost end: nat)
    requires lo <= hi <= mem.Length && Readable(mem[..], lo, hi)
    ensures err == 0 || err == -EINVAL
    ensures err == 0 ==> end >= hi && Walk(mem[..], lo, hi, offs, end) && (end == hi ==> Tiled(mem[..], lo, hi, offs))
    ensures err != 0 ==> forall os: seq<nat>, e: nat :: e >= hi ==> !Walk(mem[..], lo, hi, os, e)
    ensures forall os :: Tiled(mem[..], lo, hi, os) ==> err == 0 && end == hi && offs == os
  {
    hide SizeAt, Tiled, Readable;
    offs := [];
    var next := lo;
    forall os ensures Tiled(mem[..], lo, hi, os) ==> Walk(mem[..], lo, hi, os, hi) {
      TiledWalks(mem[..], lo, hi, os);
    }
    while next < hi
      invariant lo <= next && Readable(mem[..], next, hi) && Walk(mem[..], lo, hi, offs, next)
      invariant forall os: seq<nat>, e: nat :: e >= hi && Walk(mem[..], lo, hi, os, e) ==>
                  |offs| <= |os| && os[..|offs|] == offs && Walk(mem[..], next, hi, os[|offs|..], e)
      decreases hi - next
    {
      HeaderRead(mem[..], next, hi);
      var size := SizeAt(mem[..], next);
      if size < 0 {
        return -EINVAL, offs, next;
      }
      SizeNotZero(mem[..], next);
      WalkOn(mem[..], lo, hi, offs, next);
      ghost var before := offs;
      offs := offs + [next];
      forall os: seq<nat>, e: nat | e >= hi && Walk(mem[..], lo, hi, os, e)
        ensures |offs| <= |os| && os[..|offs|] == offs && Walk(mem[..], next + size, hi, os[|offs|..], e)
      {
        var rest := os[|before|..];
        assert Walk(mem[..], next, hi, rest, e) && rest != [];
        assert rest[1..] == os[|offs|..] && rest[0] == os[|before|];
      }
      next := next + size;
    }
    TiledWalks(mem[..], lo, hi, offs);
    return 0, offs, next;
  }

  lemma HeaderRead(mem: seq<Octet>, lo: nat, hi: nat)
    requires Readable(mem, lo, hi) && lo < hi
    ensures lo + 8 <= |mem| && (SizeAt(mem, lo) > 0 ==> Readable(mem, lo + SizeAt(mem, lo), hi))
  {
  }

  /** One integer, cut short: the descriptor of sixteen bytes is accepted in a section of twelve. */
  lemma OvershootAccepted()
    ensures var mem := seq(7, _ => 0) + [1] + seq(8, _ => 0);
      && Readable(mem, 0, 12) && Walk(mem, 0, 12, [0], 16)
      && forall os :: !Tiled(mem, 0, 12, os)
  {
    var mem: seq<Octet> := seq(7, _ => 0) + [1] + seq(8, _ => 0);
    assert mem[7] == 1 && mem[4] == 0 && mem[5] == 0;
    assert SizeAt(mem, 0) == 16;
    assert [0][1..] == [];
  }

  // ---------------------------------------------------------------- compaction in place

  /** The bytes of the descriptor at `p`. */
  function Chunk(mem: seq<Octet>, p: nat): seq<Octet>
    requires p + 8 <= |mem| && 0 <= SizeAt(mem, p) && p + SizeAt(mem, p) <= |mem|
  {
    mem[p..p + SizeAt(mem, p)]
  }

  /** A whole descriptor starts at `p`. */
  ghost predicate HasDesc(mem: seq<Octet>, p: nat) {
    p + 8 <= |mem| && SizeAt(mem, p) >= 12 && p + SizeAt(mem, p) <= |mem|
  }

  /** The size of a descriptor is part of its own bytes. */
  lemma SizeIsLocal(mem: seq<Octet>, p: nat, mem': seq<Octet>, p': nat)
    requires HasDesc(mem, p) && p' + SizeAt(mem, p) <= |mem'|
    requires mem'[p'..p' + SizeAt(mem, p)] == Chunk(mem, p)
    ensures HasDesc(mem', p') && SizeAt(mem', p') == SizeAt(mem, p) && Chunk(mem', p') == Chunk(mem, p)
  {
    var n := SizeAt(mem, p);
    var c, c' := mem[p..p + n], mem'[p'..p' + n];
    assert c[4] == c'[4] && c[5] == c'[5] && c[7] == c'[7];
    assert mem[p + 4] == c[4] && mem[p + 5] == c[5] && mem[p + 7] == c[7];
    assert mem'[p' + 4] == c'[4] && mem'[p' + 5] == c'[5] && mem'[p' + 7] == c'[7];
  }

  lemma SliceBelow(mem: seq<Octet>, mem': seq<Octet>, hi: nat, a: nat, b: nat)
    requires a <= b <= hi <= |mem| && hi <= |mem'| && mem'[..hi] == mem[..hi]
    ensures mem'[a..b] == mem[a..b]
  {
    assert mem'[a..b] == mem'[..hi][a..b];
    assert mem[a..b] == mem[..hi][a..b];
  }

  /** What lies below `hi` determines a tiling that ends there. */
  lemma {:induction false} TiledFrame(mem: seq<Octet>, mem': seq<Octet>, lo: nat, hi: nat, offs: seq<nat>)
    requires Tiled(mem, lo, hi, offs) && |mem'| == |mem| && lo <= hi <= |mem| && mem'[..hi] == mem[..hi]
    ensures Tiled(mem', lo, hi, offs)
    decreases |offs|
  {
    if offs != [] {
      SizeNotZero(mem, lo);
      var n := SizeAt(mem, lo);
      SliceBelow(mem, mem', hi, lo, lo + n);
      SizeIsLocal(mem, lo, mem', lo);
      hide SizeAt;
      TiledFrame(mem, mem', lo + n, hi, offs[1..]);
    }
  }

  /** Each offset of a tiling holds a descriptor that ends where the next one starts. */
  lemma {:induction false} TiledAt(mem: seq<Octet>, lo: nat, hi: nat, offs: seq<nat>, k: nat)
    requires Tiled(mem, lo, hi, offs) && k < |offs|
    ensures HasDesc(mem, offs[k]) && lo <= offs[k]
    ensures offs[k] + SizeAt(mem, offs[k]) == if k + 1 < |offs| then offs[k + 1] else hi
    ensures offs[k] + SizeAt(mem, offs[k]) <= hi <= |mem|
    decreases |offs|
  {
    SizeNotZero(mem, lo);
    hide SizeAt;
    if k > 0 {
      TiledAt(mem, lo + SizeAt(mem, lo), hi, offs[1..], k - 1);
    } else if |offs| > 1 {
      assert Tiled(mem, lo + SizeAt(mem, lo), hi, offs[1..]);
    }
  }

  /** Memory after a move of `len` bytes towards lower addresses. */
  function Moved(mem: seq<Octet>, dst: nat, src: nat, len: nat): (r: seq<Octet>)
    requires dst <= src && src + len <= |mem|
    ensures |r| == |mem|
  {
    mem[..dst] + mem[src..src + len] + mem[dst + len..]
  }

  lemma MovedParts(mem: seq<Octet>, dst: nat, src: nat, len: nat)
    requires dst <= src && src + len <= |mem|
    ensures var r := Moved(mem, dst, src, len);
            r[..dst] == mem[..dst] && r[dst..dst + len] == mem[src..src + len] && r[dst + len..] == mem[dst + len..]
  {
  }

  lemma MovedPointwise(mem: seq<Octet>, r: seq<Octet>, dst: nat, src: nat, len: nat)
    requires dst <= src && src + len <= |mem| == |r|
    requires forall j {:trigger r[j]} :: 0 <= j < |r| ==> r[j] == if dst <= j < dst + len then mem[src - dst + j]
        else mem[j]
    ensures r == Moved(mem, dst, src, len)
  {
    var e := Moved(mem, dst, src, len);
    forall j | 0 <= j < |r| ensures r[j] == e[j] {
    }
  }

  /** `memmove` towards lower addresses. */
  method MemMove(data: array<Octet>, dst: nat, src: nat, len: nat)
    requires dst <= src && src + len <= data.Length
    modifies data
    ensures data[..] == Moved(old(data[..]), dst, src, len)
  {
    ghost var mem := data[..];
    for k := 0 to len
      invariant forall j {:trigger data[j]} :: 0 <= j < data.Length ==>
          data[j] == if dst <= j < dst + k then mem[src - dst + j] else mem[j]
    {
      data[dst + k] := data[src + k];
    }
    MovedPointwise(mem, data[..], dst, src, len);
  }

  /** The kept descriptors so far: `offs[k]` holds what `old_` held for the k-th canonical id. */
  ghost predicate ChunksKept(mem0: seq<Octet>, offs0: seq<nat>, c: seq<Id>, mem: seq<Octet>, offs: seq<nat>) {
    && |offs| == |c|
    && forall k {:trigger c[k]} :: 0 <= k < |c| ==>
         (0 < c[k] <= |offs0| && SameChunk(mem0, offs0[c[k] - 1], mem, offs[k]))
  }

  /** The same descriptor, byte for byte. */
  ghost predicate SameChunk(mem0: seq<Octet>, p0: nat, mem: seq<Octet>, p: nat) {
    HasDesc(mem0, p0) && HasDesc(mem, p) && Chunk(mem, p) == Chunk(mem0, p0)
  }

  /** Between two rounds of the compaction loop: everything from the next original descriptor
      on is untouched, and what was kept is packed up to `p`. */
  ghost predicate Packed(mem0: seq<Octet>, lo: nat, hi: nat, offs0: seq<nat>, c: seq<Id>, i: nat, mem: seq<Octet>,
      offs: seq<nat>, p: nat)
  {
    var next := if 0 < i <= |offs0| then offs0[i - 1] else hi;
    && lo <= p <= next <= hi <= |mem0| == |mem|
    && Tiled(mem0, lo, hi, offs0)
    && mem[..lo] == mem0[..lo] && mem[next..] == mem0[next..]
    && Tiled(mem, lo, p, offs)
    && ChunksKept(mem0, offs0, c, mem, offs)
  }

  lemma PackSkip(mem0: seq<Octet>, lo: nat, hi: nat, offs0: seq<nat>, c: seq<Id>, i: nat, mem: seq<Octet>,
      offs: seq<nat>, p: nat)
    requires 0 < i <= |offs0| && Packed(mem0, lo, hi, offs0, c, i, mem, offs, p)
    ensures Packed(mem0, lo, hi, offs0, c, i + 1, mem, offs, p)
  {
    TiledAt(mem0, lo, hi, offs0, i - 1);
    hide SizeAt, Tiled, ChunksKept;
    var a, b := offs0[i - 1], if i + 1 <= |offs0| then offs0[i] else hi;
    assert mem[b..] == mem[a..][b - a..];
    assert mem0[b..] == mem0[a..][b - a..];
  }

  /** Moving the next kept descriptor down overwrites nothing that is still to be read. */
  lemma PackMove(mem0: seq<Octet>, lo: nat, hi: nat, offs0: seq<nat>, c: seq<Id>, i: nat, mem: seq<Octet>,
      offs: seq<nat>, p: nat)
    requires 0 < i <= |offs0| && Packed(mem0, lo, hi, offs0, c, i, mem, offs, p)
    ensures HasDesc(mem, offs0[i - 1]) && SizeAt(mem, offs0[i - 1]) == SizeAt(mem0, offs0[i - 1])
    ensures var n := SizeAt(mem, offs0[i - 1]);
            p <= offs0[i - 1] && Packed(mem0, lo, hi, offs0, c + [i], i + 1, Moved(mem, p, offs0[i - 1], n), offs + [p],
                p + n)
  {
    var a := offs0[i - 1];
    TiledAt(mem0, lo, hi, offs0, i - 1);
    hide SizeAt, Tiled, ChunksKept, Moved, HasDesc, Chunk;
    NextUnread(mem0, mem, a);
    var n := SizeAt(mem, a);
    PackMoved(mem0, lo, offs0, c, i, mem, offs, p, a, n);
    var mem' := Moved(mem, p, a, n);
    MovedParts(mem, p, a, n);
    PackedAround(mem0, mem, mem', lo, p, a, n, if i + 1 <= |offs0| then offs0[i] else hi);
  }

  /** The next descriptor is still as it was. */
  lemma NextUnread(mem0: seq<Octet>, mem: seq<Octet>, a: nat)
    requires HasDesc(mem0, a) && |mem| == |mem0| && mem[a..] == mem0[a..]
    ensures HasDesc(mem, a) && SizeAt(mem, a) == SizeAt(mem0, a) && Chunk(mem, a) == Chunk(mem0, a)
  {
    hide SizeAt;
    var n := SizeAt(mem0, a);
    assert mem[a..a + n] == mem[a..][..n] == mem0[a..][..n] == mem0[a..a + n];
    SizeIsLocal(mem0, a, mem, a);
  }

  lemma PackMoved(mem0: seq<Octet>, lo: nat, offs0: seq<nat>, c: seq<Id>, i: nat, mem: seq<Octet>, offs: seq<nat>,
      p: nat, a: nat, n: nat)
    requires lo <= p <= a && 0 < i <= |offs0| && a == offs0[i - 1] && HasDesc(mem0, a) && HasDesc(mem, a)
        && Chunk(mem, a) == Chunk(mem0, a)
    requires n == SizeAt(mem, a) && |mem| == |mem0| && Tiled(mem, lo, p, offs) && ChunksKept(mem0, offs0, c, mem, offs)
    ensures Tiled(Moved(mem, p, a, n), lo, p + n, offs + [p])
        && ChunksKept(mem0, offs0, c + [i], Moved(mem, p, a, n), offs + [p])
  {
    hide SizeAt, Tiled, ChunksKept, Moved;
    var mem' := Moved(mem, p, a, n);
    MovedParts(mem, p, a, n);
    SizeIsLocal(mem, a, mem', p);
    TiledFrame(mem, mem', lo, p, offs);
    TiledOne(mem', p);
    TiledAppend(mem', lo, p, p + n, offs, [p]);
    ChunksMoved(mem0, lo, offs0, c, mem, offs, p, mem');
    ChunksMore(mem0, offs0, c, i, mem', offs, p);
  }

  lemma TiledOne(mem: seq<Octet>, p: nat)
    requires HasDesc(mem, p)
    ensures Tiled(mem, p, p + SizeAt(mem, p), [p])
  {
    hide SizeAt;
  }

  /** The move stays between what was packed before and what is still to be read. */
  lemma PackedAround(mem0: seq<Octet>, mem: seq<Octet>, mem': seq<Octet>, lo: nat, p: nat, a: nat, n: nat, next: nat)
    requires lo <= p <= a && a + n == next <= |mem| == |mem0| && |mem'| == |mem|
    requires mem[..lo] == mem0[..lo] && mem[a..] == mem0[a..]
    requires mem'[..p] == mem[..p] && mem'[p + n..] == mem[p + n..]
    ensures mem'[..lo] == mem0[..lo] && mem'[next..] == mem0[next..]
  {
    assert mem'[..lo] == mem'[..p][..lo] == mem[..p][..lo] == mem[..lo];
    assert mem'[next..] == mem'[p + n..][a - p..] == mem[p + n..][a - p..] == mem[next..];
    assert mem[next..] == mem[a..][n..] == mem0[a..][n..] == mem0[next..];
  }

  lemma ChunksMoved(mem0: seq<Octet>, lo: nat, offs0: seq<nat>, c: seq<Id>, mem: seq<Octet>, offs: seq<nat>, p: nat,
      mem': seq<Octet>)
    requires ChunksKept(mem0, offs0, c, mem, offs) && Tiled(mem, lo, p, offs) && |mem'| == |mem| && p <= |mem|
        && mem'[..p] == mem[..p]
    ensures ChunksKept(mem0, offs0, c, mem', offs)
  {
    hide SizeAt, Tiled;
    forall k {:trigger c[k]} | 0 <= k < |c| ensures SameChunk(mem0, offs0[c[k] - 1], mem', offs[k]) {
      TiledAt(mem, lo, p, offs, k);
      var q, n := offs[k], SizeAt(mem, offs[k]);
      SliceBelow(mem, mem', p, q, q + n);
      SizeIsLocal(mem, q, mem', q);
    }
  }

  lemma ChunksMore(mem0: seq<Octet>, offs0: seq<nat>, c: seq<Id>, i: nat, mem: seq<Octet>, offs: seq<nat>, p: nat)
    requires ChunksKept(mem0, offs0, c, mem, offs) && 0 < i <= |offs0| && SameChunk(mem0, offs0[i - 1], mem, p)
    ensures ChunksKept(mem0, offs0, c + [i], mem, offs + [p])
  {
    hide SameChunk;
    var c', offs' := c + [i], offs + [p];
    forall k {:trigger c'[k]} | 0 <= k < |c'|
      ensures 0 < c'[k] <= |offs0| && SameChunk(mem0, offs0[c'[k] - 1], mem, offs'[k])
    {
      if k < |c| {
        assert c'[k] == c[k] && offs'[k] == offs[k];
      }
    }
  }

  /** The raw BTF data and its index (`struct btf`, as far as compaction uses it). */
  class RawBtf {
    const data: array<Octet>
    /** `btf->types` as offsets into the data; entry 0 is void and lies elsewhere */
    const types: array<nat>
    var nrTypes: nat
    var typeOff: nat
    var strOff: nat
    var strLen: nat

    constructor (data: array<Octet>, types: array<nat>, typeOff: nat, strOff: nat, strLen: nat)
      requires types.Length > 0
      ensures this.data == data && this.types == types && this.typeOff == typeOff && this.strOff == strOff
          && this.strLen == strLen
      ensures nrTypes == types.Length - 1
    {
      this.data, this.types, this.typeOff, this.strOff, this.strLen := data, types, typeOff, strOff, strLen;
      nrTypes := types.Length - 1;
    }

    /** The start of the renumbering: only void has its id. */
    method NothingNumbered(ghost map_: seq<nat>, hypotMap: array<nat>)
      requires nrTypes + 1 == types.Length == |map_| == hypotMap.Length
      modifies hypotMap
      ensures Numbering(map_, hypotMap[..], 1)
    {
      hypotMap[0] := 0;
      for i := 1 to nrTypes + 1
        invariant hypotMap[0] == 0 && forall k :: 1 <= k < i ==> hypotMap[k] == UNPROCESSED
      {
        hypotMap[i] := UNPROCESSED;
      }
      NumberStart(map_, hypotMap[..]);
    }

    /** `btf_dedup_compact_types` on bytes. The kept descriptors keep their bytes, in id order and
        without gaps; the strings follow; what a new parse reads are the new offsets. */
    method Compact(map_: seq<nat>, hypotMap: array<nat>)
      requires nrTypes + 1 == types.Length == |map_| == hypotMap.Length && types != hypotMap
      requires strOff + strLen <= data.Length && Tiled(data[..], typeOff, strOff, types[1..])
      modifies this`nrTypes, this`strOff, data, types, hypotMap
      ensures Numbering(map_, hypotMap[..], |map_|)
      ensures nrTypes == |Canonicals(map_, |map_|)| < types.Length
      ensures Tiled(data[..], typeOff, strOff, types[1..nrTypes + 1])
      ensures ChunksKept(old(data[..]), old(types[1..]), Canonicals(map_, |map_|), data[..], types[1..nrTypes + 1])
      ensures strOff + strLen <= data.Length && data[strOff..strOff + strLen] == old(data[strOff..strOff + strLen])
    {
      hide Canonicals, Numbering, Tiled, ChunksKept, SizeAt, Moved;
      ghost var mem0, offs0, lo, hi := data[..], types[1..], typeOff, strOff;
      NothingNumbered(map_, hypotMap);
      CanonicalsFacts(map_, 1);
      assert data[..] == mem0;
      PackStart(mem0, lo, hi, offs0);
      assert Canonicals(map_, 1) == [];
      var nextTypeId: nat, p: nat := 1, typeOff;
      assert types[1..1] == [];
      for i := 1 to nrTypes + 1
        invariant nrTypes + 1 == types.Length && typeOff == lo && strOff == hi
        invariant nextTypeId == |Canonicals(map_, i)| + 1 <= i && Numbering(map_, hypotMap[..], i)
        invariant forall k :: i <= k < types.Length ==> types[k] == offs0[k - 1]
        invariant Packed(mem0, lo, hi, offs0, Canonicals(map_, i), i, data[..], types[1..nextTypeId], p)
        modifies data, types, hypotMap
      {
        NumberNext(map_, hypotMap[..], i);
        if map_[i] == i {
          PackMove(mem0, lo, hi, offs0, Canonicals(map_, i), i, data[..], types[1..nextTypeId], p);
          ghost var h, ts := hypotMap[..], types[1..nextTypeId];
          var len := SizeAt(data[..], types[i]);
          MemMove(data, p, types[i], len);
          hypotMap[i] := nextTypeId;
          assert hypotMap[..] == h[i := nextTypeId];
          types[nextTypeId] := p;
          assert types[1..nextTypeId + 1] == ts + [p];
          p := p + len;
          nextTypeId := nextTypeId + 1;
        } else {
          PackSkip(mem0, lo, hi, offs0, Canonicals(map_, i), i, data[..], types[1..nextTypeId], p);
        }
      }
      CanonicalsFacts(map_, |map_|);
      nrTypes := nextTypeId - 1;
      StringsMove(mem0, lo, hi, offs0, Canonicals(map_, |map_|), data[..], types[1..nextTypeId], p, strLen);
      MemMove(data, p, strOff, strLen);
      strOff := p;
    }
  }

  lemma PackStart(mem0: seq<Octet>, lo: nat, hi: nat, offs0: seq<nat>)
    requires Tiled(mem0, lo, hi, offs0) && hi <= |mem0|
    ensures Packed(mem0, lo, hi, offs0, [], 1, mem0, [], lo)
  {
    hide SizeAt;
    if offs0 != [] {
      TiledAt(mem0, lo, hi, offs0, 0);
    }
  }

  /** Moving the strings down to the end of the types keeps both. */
  lemma StringsMove(mem0: seq<Octet>, lo: nat, hi: nat, offs0: seq<nat>, c: seq<Id>, mem: seq<Octet>, offs: seq<nat>,
      p: nat, len: nat)
    requires Packed(mem0, lo, hi, offs0, c, |offs0| + 1, mem, offs, p) && hi + len <= |mem0|
    ensures p <= hi && hi + len <= |mem|
    ensures var mem' := Moved(mem, p, hi, len);
            Tiled(mem', lo, p, offs) && ChunksKept(mem0, offs0, c, mem', offs) && mem'[p..p + len] == mem0[hi..hi + len]
  {
    hide SizeAt, Tiled, ChunksKept, Moved;
    var mem' := Moved(mem, p, hi, len);
    MovedParts(mem, p, hi, len);
    TiledFrame(mem, mem', lo, p, offs);
    ChunksMoved(mem0, lo, offs0, c, mem, offs, p, mem');
    assert mem[hi..hi + len] == mem[hi..][..len] == mem0[hi..][..len] == mem0[hi..hi + len];
  }

  // ---------------------------------------------------------------- decoding

  function KindOf(n: nat): Kind
    requires n < 16
  {
    [VOID, INT, PTR, ARRAY, STRUCT, UNION, ENUM, FWD, TYPEDEF, VOLATILE, CONST, RESTRICT, FUNC, FUNC_PROTO, VAR,
        DATASEC][n]
  }

  /** A 32-bit word read as a signed number. */
  function S32(n: nat): int { if n >= 0x8000_0000 then n - 0x1_0000_0000 else n }

  function DecodeInfo(c: seq<Octet>): Info
    requires |c| >= 8
  {
    Info(KindOf(KindAt(c, 0)), VlenAt(c, 0), c[7] as int >= 128, c[6] as int + 0x100 * (c[7] as int / 16 % 8))
  }

  /** A byte string that is one whole descriptor. */
  ghost predicate IsDesc(c: seq<Octet>) {
    HasDesc(c, 0) && SizeAt(c, 0) == |c|
  }

  function DecodeData(c: seq<Octet>): Data
    requires IsDesc(c)
  {
    var kind, n := KindAt(c, 0), VlenAt(c, 0);
    if kind == 1 then IntData(U32(c, 12))
    else if kind == 3 then ArrayData(U32(c, 12), U32(c, 16), U32(c, 20))
    else if kind == 4 || kind == 5 then
      Members(seq(n, i requires 0 <= i < n => Member(U32(c, 12 + 12 * i), U32(c, 16 + 12 * i), U32(c, 20 + 12 * i))))
    else if kind == 6 then
      Enumerators(seq(n, i requires 0 <= i < n => Enumerator(U32(c, 12 + 8 * i), S32(U32(c, 16 + 8 * i)))))
    else if kind == 13 then
      Params(seq(n, i requires 0 <= i < n => Param(U32(c, 12 + 8 * i), U32(c, 16 + 8 * i))))
    else if kind == 14 then VarData(U32(c, 12))
    else if kind == 15 then
      SecInfos(seq(n, i requires 0 <= i < n => SecInfo(U32(c, 12 + 12 * i), U32(c, 16 + 12 * i), U32(c, 20 + 12 * i))))
    else NoData
  }

  /** The descriptor that a byte string spells (`struct btf_type` and what follows it). */
  function Decode(c: seq<Octet>): Desc
    requires IsDesc(c)
  {
    Desc(U32(c, 0), DecodeInfo(c), U32(c, 8), DecodeData(c))
  }

  lemma DecodedWellFormed(c: seq<Octet>)
    requires IsDesc(c) && (KindAt(c, 0) == 7 ==> U32(c, 8) == 0)
    ensures WellFormed(Decode(c)) && Decode(c).info.kind != VOID
  {
    hide U32, VlenAt;
    assert KindAt(c, 0) < 16;
  }

  lemma ChunkIsDesc(mem: seq<Octet>, p: nat)
    requires HasDesc(mem, p)
    ensures IsDesc(Chunk(mem, p))
  {
    var c := Chunk(mem, p);
    assert c[0..|c|] == c;
    SizeIsLocal(mem, p, c, 0);
  }

  /** Kept descriptors spell what they spelt before they were moved. */
  lemma KeptDecode(mem0: seq<Octet>, offs0: seq<nat>, c: seq<Id>, mem: seq<Octet>, offs: seq<nat>, k: nat)
    requires ChunksKept(mem0, offs0, c, mem, offs) && k < |c|
    ensures 0 < c[k] <= |offs0| && HasDesc(mem0, offs0[c[k] - 1]) && HasDesc(mem, offs[k])
    ensures IsDesc(Chunk(mem, offs[k])) && IsDesc(Chunk(mem0, offs0[c[k] - 1]))
    ensures Decode(Chunk(mem, offs[k])) == Decode(Chunk(mem0, offs0[c[k] - 1]))
  {
    hide SizeAt, Decode, Chunk, HasDesc;
    var i := c[k];
    ChunkIsDesc(mem, offs[k]);
    ChunkIsDesc(mem0, offs0[i - 1]);
  }

  // ---------------------------------------------------------------- writing descriptors

  /** The number of a kind in the format. */
  function KindCode(k: Kind): nat {
    match k
    case VOID => 0 case INT => 1 case PTR => 2 case ARRAY => 3 case STRUCT => 4 case UNION => 5 case ENUM => 6
    case FWD => 7 case TYPEDEF => 8 case VOLATILE => 9 case CONST => 10 case RESTRICT => 11 case FUNC => 12
    case FUNC_PROTO => 13 case VAR => 14 case DATASEC => 15
  }

  /** The bytes of a 32-bit word, the least significant one first. */
  function Bytes(w: nat): (r: seq<Octet>)
    ensures |r| == 4
  {
    [w % 0x100, w / 0x100 % 0x100, w / 0x1_0000 % 0x100, w / 0x100_0000 % 0x100]
  }

  /** The second word of a descriptor: the count in the low half, the kind in bits 24 to 27, the
      flag in bit 31, and what no macro reads in between. */
  function InfoBytes(i: Info): (r: seq<Octet>)
    ensures |r| == 4
  {
    [i.vlen % 0x100, i.vlen / 0x100 % 0x100, i.unused % 0x100,
        KindCode(i.kind) + 0x10 * (i.unused / 0x100 % 8) + (if i.kflag then 0x80 else 0)]
  }

  /** What follows a descriptor, word by word: three for an array, for a member and for a variable
      of a section, two for an enumerator and for a parameter, one for an integer or a variable. */
  function DataWords(d: Data): seq<nat> {
    match d
    case NoData => []
    case IntData(encoding) => [encoding]
    case ArrayData(elem, index, nelems) => [elem, index, nelems]
    case VarData(linkage) => [linkage]
    case Members(ms) =>
      seq(3 * |ms|, i requires 0 <= i < 3 * |ms| =>
        if i % 3 == 0 then ms[i / 3].name else if i % 3 == 1 then ms[i / 3].ty else ms[i / 3].offset)
    case Enumerators(es) =>
      seq(2 * |es|, i requires 0 <= i < 2 * |es| => if i % 2 == 0 then es[i / 2].name else Unsigned(es[i / 2].val))
    case Params(ps) =>
      seq(2 * |ps|, i requires 0 <= i < 2 * |ps| => if i % 2 == 0 then ps[i / 2].name else ps[i / 2].ty)
    case SecInfos(ss) =>
      seq(3 * |ss|, i requires 0 <= i < 3 * |ss| =>
        if i % 3 == 0 then ss[i / 3].ty else if i % 3 == 1 then ss[i / 3].offset else ss[i / 3].size)
  }

  function Spelled(ws: seq<nat>): (r: seq<Octet>)
    ensures |r| == 4 * |ws|
  {
    if ws == [] then [] else Spelled(ws[..|ws| - 1]) + Bytes(ws[|ws| - 1])
  }

  /** A signed 32-bit number as a word. */
  function Unsigned(v: int): nat { v % 0x1_0000_0000 }

  /** A descriptor as it is laid out in a file. */
  function Encode(d: Desc): seq<Octet> {
    Bytes(d.name) + InfoBytes(d.info) + Bytes(d.word) + Spelled(DataWords(d.data))
  }

  predicate IsWord(n: nat) { n < 0x1_0000_0000 }

  /** Every field fits its place in the format. */
  predicate Storable(d: Desc) {
    && WellFormed(d) && d.info.kind != VOID && IsWord(d.name) && IsWord(d.word)
    && d.info.vlen < 0x1_0000 && d.info.unused < 0x800
    && (forall k {:trigger DataWords(d.data)[k]} :: 0 <= k < |DataWords(d.data)| ==> IsWord(DataWords(d.data)[k]))
    && (d.data.Enumerators? ==> forall k {:trigger d.data.enumerators[k]} :: 0 <= k < |d.data.enumerators| ==>
          -0x8000_0000 <= d.data.enumerators[k].val < 0x8000_0000)
  }

  lemma Digits(w: nat)
    requires IsWord(w)
    ensures w % 0x100 + 0x100 * (w / 0x100 % 0x100) + 0x1_0000 * (w / 0x1_0000 % 0x100)
        + 0x100_0000 * (w / 0x100_0000 % 0x100) == w
  {
    assert w / 0x1_0000 == w / 0x100 / 0x100 && w / 0x100_0000 == w / 0x1_0000 / 0x100;
  }

  lemma WordReads(mem: seq<Octet>, p: nat, w: nat)
    requires p + 4 <= |mem| && mem[p..p + 4] == Bytes(w) && IsWord(w)
    ensures U32(mem, p) == w
  {
    Digits(w);
    var b := mem[p..p + 4];
    assert mem[p] == b[0] && mem[p + 1] == b[1] && mem[p + 2] == b[2] && mem[p + 3] == b[3];
  }

  /** Words written one behind the other read back. */
  lemma {:induction false} SpelledReads(ws: seq<nat>, k: nat)
    requires k < |ws| && IsWord(ws[k])
    ensures U32(Spelled(ws), 4 * k) == ws[k]
  {
    var n := |ws| - 1;
    var front := Spelled(ws[..n]);
    if k == n {
      assert Spelled(ws)[4 * n..4 * n + 4] == Bytes(ws[n]);
      WordReads(Spelled(ws), 4 * n, ws[n]);
    } else {
      SpelledReads(ws[..n], k);
      assert Spelled(ws) == front + Bytes(ws[n]);
    }
  }

  /** The words of the data are read at their place in the descriptor. */
  lemma DataReads(d: Desc, k: nat)
    requires Storable(d) && k < |DataWords(d.data)|
    ensures |Encode(d)| == 12 + 4 * |DataWords(d.data)| && U32(Encode(d), 12 + 4 * k) == DataWords(d.data)[k]
  {
    hide Bytes, InfoBytes, DataWords, WellFormed;
    var ws := DataWords(d.data);
    SpelledReads(ws, k);
    var c, s := Encode(d), Spelled(ws);
    assert c[12..] == s;
    assert forall j {:trigger s[j]} :: 0 <= j < |s| ==> c[12 + j] == s[j];
  }

  /** The header of what was written. */
  lemma HeaderReads(d: Desc)
    requires Storable(d)
    ensures |Encode(d)| == 12 + 4 * |DataWords(d.data)|
    ensures U32(Encode(d), 0) == d.name && U32(Encode(d), 8) == d.word
    ensures VlenAt(Encode(d), 0) == d.info.vlen && KindAt(Encode(d), 0) == KindCode(d.info.kind)
    ensures DecodeInfo(Encode(d)) == d.info
  {
    hide Spelled, DataWords, WellFormed;
    var c := Encode(d);
    assert c[0..4] == Bytes(d.name) && c[8..12] == Bytes(d.word);
    WordReads(c, 0, d.name);
    WordReads(c, 8, d.word);
    var i := InfoBytes(d.info);
    assert c[4] == i[0] && c[5] == i[1] && c[6] == i[2] && c[7] == i[3];
    KindCodes(d.info.kind);
  }

  lemma KindCodes(k: Kind)
    ensures KindCode(k) < 16 && KindOf(KindCode(k)) == k
  {
  }

  /** The size in the format is the size of what was written. */
  lemma SizeWritten(d: Desc)
    requires Storable(d)
    ensures IsDesc(Encode(d))
  {
    HeaderReads(d);
    hide Encode, U32, DecodeInfo, Spelled;
    assert |DataWords(d.data)| ==
      match d.data
      case NoData => 0
      case IntData(_) => 1
      case ArrayData(_, _, _) => 3
      case VarData(_) => 1
      case Members(ms) => 3 * |ms|
      case Enumerators(es) => 2 * |es|
      case Params(ps) => 2 * |ps|
      case SecInfos(ss) => 3 * |ss|;
  }

  /** Reading what was written gives the descriptor back. */
  lemma DecodeEncode(d: Desc)
    requires Storable(d)
    ensures IsDesc(Encode(d)) && Decode(Encode(d)) == d
  {
    SizeWritten(d);
    HeaderReads(d);
    DecodesData(d);
    hide Encode, U32, DecodeInfo, DecodeData, WellFormed;
  }

  lemma DecodesData(d: Desc)
    requires Storable(d) && IsDesc(Encode(d))
    ensures DecodeData(Encode(d)) == d.data
  {
    HeaderReads(d);
    KindCodes(d.info.kind);
    hide Encode, U32, DecodeInfo, IsDesc, Spelled, KindAt, VlenAt;
    var c, ws := Encode(d), DataWords(d.data);
    forall k {:trigger ws[k]} | 0 <= k < |ws| ensures 16 + 4 * k <= |c| && U32(c, 12 + 4 * k) == ws[k] {
      DataReads(d, k);
    }
    if d.data.Members? {
      MembersRead(d, c, ws);
    } else if d.data.SecInfos? {
      SecInfosRead(d, c, ws);
    } else if d.data.Enumerators? || d.data.Params? {
      PairsRead(d, c, ws);
    } else if d.data.ArrayData? {
      assert U32(c, 12) == ws[0] && U32(c, 16) == ws[1] && U32(c, 20) == ws[2];
    } else if !d.data.NoData? {
      assert U32(c, 12) == ws[0];
    }
  }

  /** The words of a descriptor, read at their places. */
  ghost predicate WordsAt(c: seq<Octet>, ws: seq<nat>) {
    forall k {:trigger ws[k]} :: 0 <= k < |ws| ==> 16 + 4 * k <= |c| && U32(c, 12 + 4 * k) == ws[k]
  }

  lemma WordAt(c: seq<Octet>, ws: seq<nat>, k: nat)
    requires WordsAt(c, ws) && k < |ws|
    ensures 16 + 4 * k <= |c| && U32(c, 12 + 4 * k) == ws[k]
  {
    hide U32;
    assert ws[k] >= 0;
  }

  lemma TripleAt(c: seq<Octet>, ws: seq<nat>, k: nat)
    requires WordsAt(c, ws) && 3 * k + 2 < |ws|
    ensures 24 + 12 * k <= |c| && U32(c, 12 + 12 * k) == ws[3 * k]
    ensures U32(c, 16 + 12 * k) == ws[3 * k + 1] && U32(c, 20 + 12 * k) == ws[3 * k + 2]
  {
    hide U32, WordsAt;
    WordAt(c, ws, 3 * k);
    WordAt(c, ws, 3 * k + 1);
    WordAt(c, ws, 3 * k + 2);
    assert 4 * (3 * k) == 12 * k && 4 * (3 * k + 1) == 4 + 12 * k && 4 * (3 * k + 2) == 8 + 12 * k;
  }

  lemma MembersRead(d: Desc, c: seq<Octet>, ws: seq<nat>)
    requires Storable(d) && IsDesc(c) && ws == DataWords(d.data) && WordsAt(c, ws) && d.data.Members?
    requires KindAt(c, 0) == KindCode(d.info.kind) && VlenAt(c, 0) == d.info.vlen
    ensures DecodeData(c) == d.data
  {
    hide U32, IsDesc, KindAt, VlenAt, WordsAt;
    var ms := d.data.members;
    forall k: nat | k < |ms|
      ensures 24 + 12 * k <= |c|
        && Member(U32(c, 12 + 12 * k), U32(c, 16 + 12 * k), U32(c, 20 + 12 * k)) == ms[k]
    {
      TripleAt(c, ws, k);
    }
  }

  lemma SecInfosRead(d: Desc, c: seq<Octet>, ws: seq<nat>)
    requires Storable(d) && IsDesc(c) && ws == DataWords(d.data) && WordsAt(c, ws) && d.data.SecInfos?
    requires KindAt(c, 0) == KindCode(d.info.kind) && VlenAt(c, 0) == d.info.vlen
    ensures DecodeData(c) == d.data
  {
    hide U32, IsDesc, KindAt, VlenAt, WordsAt;
    var ss := d.data.secinfos;
    forall k: nat | k < |ss|
      ensures 24 + 12 * k <= |c|
        && SecInfo(U32(c, 12 + 12 * k), U32(c, 16 + 12 * k), U32(c, 20 + 12 * k)) == ss[k]
    {
      TripleAt(c, ws, k);
    }
  }

  lemma PairsRead(d: Desc, c: seq<Octet>, ws: seq<nat>)
    requires Storable(d) && IsDesc(c) && ws == DataWords(d.data) && WordsAt(c, ws)
    requires KindAt(c, 0) == KindCode(d.info.kind) && VlenAt(c, 0) == d.info.vlen
    requires d.data.Enumerators? || d.data.Params?
    ensures DecodeData(c) == d.data
  {
    hide U32, IsDesc, KindAt, VlenAt;
    forall k: nat | 2 * k + 1 < |ws|
      ensures 20 + 8 * k <= |c| && U32(c, 12 + 8 * k) == ws[2 * k] && U32(c, 16 + 8 * k) == ws[2 * k + 1]
    {
      WordAt(c, ws, 2 * k);
      WordAt(c, ws, 2 * k + 1);
      assert 4 * (2 * k) == 8 * k && 4 * (2 * k + 1) == 4 + 8 * k;
    }
  }
}
