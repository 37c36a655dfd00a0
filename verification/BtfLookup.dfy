/** Looking through a BTF type: what lies behind qualifiers and typedefs, and how large a
    type is (btf__resolve_size in btf.c, skip_mods_and_typedefs in libbpf.c). */
module BtfLookup {
  import opened Basics
  import opened Words
  import opened BtfTypes
  import opened TypeGraph
  import opened RefPass

  const EINVAL: int := 22
  const E2BIG: int := 7
  const MAX_RESOLVE_DEPTH: nat := 32
  const POINTER_SIZE: nat := 8
  const UINT32_MAX: nat := 0xffff_ffff

  /** A type section, and `btf__name_by_offset` on its string section. */
  datatype Btf = Btf(types: Graph, str: nat -> string)

  function Name(b: Btf, off: nat): string { b.str(off) }

  /** `btf_is_mod` or `btf_is_typedef` */
  predicate IsAlias(k: Kind) { k == VOLATILE || k == CONST || k == RESTRICT || k == TYPEDEF }

  /** No cycle runs through qualifiers, typedefs and array elements alone: a type defined
      that way would have no size. The ranks fall along every such reference. */
  ghost predicate Grounded(g: Graph, rank: seq<nat>) {
    && |rank| == |g|
    && (forall i {:trigger g[i].word} :: 0 <= i < |g| && IsAlias(g[i].info.kind) ==>
        g[i].word < |g| && rank[g[i].word] < rank[i])
    && (forall i {:trigger g[i].data} :: 0 <= i < |g| && g[i].info.kind == ARRAY ==>
          g[i].data.ArrayData? && g[i].data.elem < |g| && rank[g[i].data.elem] < rank[i])
  }

  /** What looking through types relies on. The ids are in range in every well-formed graph. */
  ghost predicate WfBtf(b: Btf) {
    && (exists rank :: Grounded(b.types, rank))
    && b.str(0) == ""
    && forall i: Id, k {:trigger MembersOf(b, i)[k]} :: i < |b.types| && 0 <= k < |MembersOf(b, i)| ==>
        MembersOf(b, i)[k].ty < |b.types|
  }

  /** Where an id first stands in a list. */
  function First(order: seq<Id>, i: Id): (p: nat)
    requires i in order
    ensures p < |order| && order[p] == i && i !in order[..p]
  {
    if order[0] == i then 0 else
    var p := First(order[1..], i);
    assert order[..p + 1] == [order[0]] + order[1..][..p];
    p + 1
  }

  /** The rank of a type in an order of the reference types. */
  ghost function OrderRank(g: Graph, order: seq<Id>, i: Id): nat {
    if i < |g| && IsRefKind(g[i].info.kind) && i in order then First(order, i) + 1 else 0
  }

  ghost function OrderRanks(g: Graph, order: seq<Id>): (rank: seq<nat>)
    ensures |rank| == |g| && forall i: Id :: i < |g| ==> rank[i] == OrderRank(g, order, i)
  {
    seq(|g|, i requires 0 <= i < |g| => OrderRank(g, order, i))
  }

  /** Types that deduplication accepts can be looked through: the order in which it finished the
      reference types grounds them. */
  lemma OrderedIsWfBtf(b: Btf, order: seq<Id>)
    requires WfGraph(b.types) && b.str(0) == "" && Topological(b.types, order) && AllOrdered(b.types, order)
    ensures WfBtf(b)
  {
    hide WfGraph, Topological, AllOrdered, OrderRank, OrderRanks, Refs;
    var g := b.types;
    var rank := OrderRanks(g, order);
    forall i: Id | i < |g| && IsAlias(g[i].info.kind) ensures g[i].word < |g| && rank[g[i].word] < rank[i] {
      LinkRefs(g, i);
      EdgeFalls(g, order, i, g[i].word);
    }
    forall i: Id | i < |g| && g[i].info.kind == ARRAY
      ensures g[i].data.ArrayData? && g[i].data.elem < |g| && rank[g[i].data.elem] < rank[i]
    {
      LinkRefs(g, i);
      EdgeFalls(g, order, i, g[i].data.elem);
    }
    assert Grounded(g, rank);
    MembersInRange(b);
  }

  lemma MembersInRange(b: Btf)
    requires WfGraph(b.types)
    ensures forall i: Id, k {:trigger MembersOf(b, i)[k]} :: i < |b.types| && 0 <= k < |MembersOf(b, i)| ==>
        MembersOf(b, i)[k].ty < |b.types|
  {
    forall i: Id, k | i < |b.types| && 0 <= k < |MembersOf(b, i)| ensures MembersOf(b, i)[k].ty < |b.types| {
      assert Refs(b.types[i])[k] == MembersOf(b, i)[k].ty;
    }
  }

  lemma LinkRefs(g: Graph, i: Id)
    requires WfGraph(g) && i < |g|
    ensures IsAlias(g[i].info.kind) ==> g[i].word in Refs(g[i]) && g[i].word < |g|
    ensures g[i].info.kind == ARRAY ==> g[i].data.ArrayData? && g[i].data.elem in Refs(g[i]) && g[i].data.elem < |g|
  {
    assert WellFormed(g[i]);
    if IsAlias(g[i].info.kind) {
      assert Refs(g[i])[0] == g[i].word;
    } else if g[i].info.kind == ARRAY {
      assert Refs(g[i])[1] == g[i].data.elem;
    }
  }

  lemma EdgeFalls(g: Graph, order: seq<Id>, i: Id, r: Id)
    requires Topological(g, order) && AllOrdered(g, order) && i < |g| && r < |g| && IsRefKind(g[i].info.kind)
        && r in Refs(g[i])
    ensures OrderRank(g, order, r) < OrderRank(g, order, i)
  {
    hide Refs;
    var p := First(order, i);
    assert Edge(g, order[p], r);
    if IsRefKind(g[r].info.kind) {
      assert r in order[..p];
      var k :| 0 <= k < p && order[k] == r;
      NotLater(order, r, k);
    }
  }

  lemma NotLater(order: seq<Id>, i: Id, k: nat)
    requires k < |order| && order[k] == i
    ensures i in order && First(order, i) <= k
  {
  }

  ghost function RankOf(b: Btf): (rank: seq<nat>)
    requires WfBtf(b)
    ensures Grounded(b.types, rank)
  {
    var rank :| Grounded(b.types, rank); rank
  }

  /** The members of a struct or union. */
  function MembersOf(b: Btf, i: Id): seq<Member>
    requires i < |b.types|
  {
    if IsComposite(b.types[i].info.kind) then MembersIn(b.types[i]) else []
  }

  predicate Composite(b: Btf, i: Id)
    requires i < |b.types|
  {
    IsComposite(b.types[i].info.kind)
  }

  predicate IsArray(b: Btf, i: Id)
    requires i < |b.types|
  {
    b.types[i].info.kind == ARRAY
  }

  /** The type behind qualifiers and typedefs. */
  ghost function SkipId(b: Btf, i: Id): (r: Id)
    requires WfBtf(b) && i < |b.types|
    ensures r < |b.types| && !IsAlias(b.types[r].info.kind)
    ensures RankOf(b)[r] <= RankOf(b)[i]
    decreases RankOf(b)[i]
  {
    if IsAlias(b.types[i].info.kind) then SkipId(b, b.types[i].word) else i
  }

  lemma SkipTwice(b: Btf, i: Id)
    requires WfBtf(b) && i < |b.types|
    ensures SkipId(b, SkipId(b, i)) == SkipId(b, i)
  {
  }

  /** Qualifiers and typedefs are looked through, and nothing else is. */
  lemma SkipLaws(b: Btf, i: Id)
    requires WfBtf(b) && i < |b.types|
    ensures b.types[SkipId(b, i)].info.kind !in {CONST, VOLATILE, RESTRICT, TYPEDEF}
    ensures if b.types[i].info.kind in {CONST, VOLATILE, RESTRICT, TYPEDEF} then
              b.types[i].word < |b.types| && SkipId(b, i) == SkipId(b, b.types[i].word)
            else SkipId(b, i) == i
  {
  }

  /** `skip_mods_and_typedefs` */
  method SkipModsAndTypedefs(b: Btf, id: Id) returns (r: Id)
    requires WfBtf(b) && id < |b.types|
    ensures r == SkipId(b, id)
  {
    hide WfGraph;
    r := id;
    while IsAlias(b.types[r].info.kind)
      invariant r < |b.types| && SkipId(b, r) == SkipId(b, id)
      decreases RankOf(b)[r]
    {
      r := b.types[r].word;
    }
  }

  // ---------------------------------------------------------------- sizes

  /** The kinds that have a size of their own. */
  predicate HasSize(k: Kind) { k == INT || IsComposite(k) || k == ENUM || k == DATASEC || k == PTR }

  function OwnSize(d: Desc): nat { if d.info.kind == PTR then POINTER_SIZE else d.word }

  predicate PassesOn(k: Kind) { IsAlias(k) || k == VAR }

  /** The size of a type in unbounded arithmetic: array lengths multiply the size of the
      element. Only a chain of at most `depth` types is followed. */
  function TrueSize(b: Btf, i: Id, depth: nat): Option<nat>
    decreases depth
  {
    if depth == 0 || i >= |b.types| then None
    else
      var d := b.types[i];
      if HasSize(d.info.kind) then Some(OwnSize(d))
      else if PassesOn(d.info.kind) then TrueSize(b, d.word, depth - 1)
      else if d.info.kind == ARRAY && d.data.ArrayData? then Scaled(d.data.nelems, TrueSize(b, d.data.elem, depth - 1))
      else None
  }

  /** Integers, enums, structs, unions and data sections state their size, and a pointer has eight
      bytes. A qualified type, a typedef and a variable are as large as what they name, an array as
      its elements together, and nothing else has a size. */
  lemma SizeLaws(b: Btf, i: Id, depth: nat)
    requires i < |b.types| && depth > 0 && WellFormed(b.types[i])
    ensures var (d, r) := (b.types[i], TrueSize(b, i, depth));
      match d.info.kind
      case INT | ENUM | STRUCT | UNION | DATASEC => r == Some(d.word)
      case PTR => r == Some(8)
      case CONST | VOLATILE | RESTRICT | TYPEDEF | VAR => r == TrueSize(b, d.word, depth - 1)
      case ARRAY =>
        var e := TrueSize(b, d.data.elem, depth - 1);
        r.None? == e.None? && (e.Some? ==> r == Some(d.data.nelems * e.value))
      case VOID | FWD | FUNC | FUNC_PROTO => r.None?
  {
  }

  function Scaled(n: nat, o: Option<nat>): Option<nat> {
    if o.None? then None else Some(n * o.value)
  }

  lemma ScaledTwice(n: nat, k: nat, o: Option<nat>)
    ensures Scaled(n, Scaled(k, o)) == Scaled(Times(n, k), o)
  {
    if o.Some? {
      Associate(n, k, o.value);
    }
  }

  lemma ScaledNone(n: nat)
    ensures Scaled(n, None) == None
  {
  }

  lemma FitsAfterDivision(n: nat, k: nat)
    requires n > 0 && k <= UINT32_MAX / n
    ensures 0 <= n * k <= UINT32_MAX
  {
    AtLeastZero(n, k);
    var q := UINT32_MAX / n;
    assert q * n <= UINT32_MAX;
    Distribute(q - k, k, n);
    AtLeastZero(q - k, n);
  }

  lemma AtLeastZero(x: nat, d: nat)
    ensures x * d >= 0
  {
  }

  /** What `btf__resolve_size` works out: the array lengths seen so far are multiplied in
      32 bits, and both products are checked before they are formed. */
  function SizeFrom(b: Btf, i: Id, depth: nat, nelems: nat): int
    decreases depth
  {
    if depth == 0 || i >= |b.types| then -EINVAL
    else
      var d := b.types[i];
      if HasSize(d.info.kind) then
        if nelems > 0 && OwnSize(d) > UINT32_MAX / nelems then -E2BIG else Times(nelems, OwnSize(d))
      else if PassesOn(d.info.kind) then SizeFrom(b, d.word, depth - 1, nelems)
      else if d.info.kind == ARRAY && d.data.ArrayData? then
        if nelems > 0 && d.data.nelems > UINT32_MAX / nelems then -E2BIG
        else SizeFrom(b, d.data.elem, depth - 1, Times(nelems, d.data.nelems))
      else -EINVAL
  }

  function Times(n: nat, k: nat): nat { n * k }

  function ResolvedSize(b: Btf, i: Id): int { SizeFrom(b, i, MAX_RESOLVE_DEPTH, 1) }

  /** When a size is found it is exact and fits 32 bits; -EINVAL means there is none within
      the depth, and -E2BIG is the only other answer. */
  lemma {:induction false} SizeFromExact(b: Btf, i: Id, depth: nat, nelems: nat)
    requires nelems <= UINT32_MAX
    ensures var r := SizeFrom(b, i, depth, nelems);
      && (r >= 0 ==> r <= UINT32_MAX && Scaled(nelems, TrueSize(b, i, depth)) == Some(r))
      && (r < 0 ==> r == -EINVAL || r == -E2BIG)
      && (r == -EINVAL ==> TrueSize(b, i, depth).None?)
    decreases depth
  {
    hide Times, Scaled;
    ScaledNone(nelems);
    if depth > 0 && i < |b.types| {
      var d := b.types[i];
      if HasSize(d.info.kind) {
        TimesFits(nelems, OwnSize(d));
      } else if PassesOn(d.info.kind) {
        SizeFromExact(b, d.word, depth - 1, nelems);
      } else if d.info.kind == ARRAY && d.data.ArrayData? {
        TimesFits(nelems, d.data.nelems);
        ScaledNone(d.data.nelems);
        if !(nelems > 0 && d.data.nelems > UINT32_MAX / nelems) {
          ScaledTwice(nelems, d.data.nelems, TrueSize(b, d.data.elem, depth - 1));
          SizeFromExact(b, d.data.elem, depth - 1, Times(nelems, d.data.nelems));
        }
      }
    }
  }

  lemma TimesFits(n: nat, k: nat)
    ensures Scaled(n, Some(k)) == Some(Times(n, k))
    ensures !(n > 0 && k > UINT32_MAX / n) ==> Times(n, k) <= UINT32_MAX
  {
    if n > 0 && k <= UINT32_MAX / n {
      FitsAfterDivision(n, k);
    }
  }

  lemma ResolvedExact(b: Btf, i: Id)
    ensures var r := ResolvedSize(b, i);
      && (r >= 0 ==> r <= UINT32_MAX && TrueSize(b, i, MAX_RESOLVE_DEPTH) == Some(r))
      && (r < 0 ==> r == -EINVAL || r == -E2BIG)
      && (r == -EINVAL ==> TrueSize(b, i, MAX_RESOLVE_DEPTH).None?)
  {
    SizeFromExact(b, i, MAX_RESOLVE_DEPTH, 1);
  }

  /** `btf__resolve_size` */
  method ResolveSize(b: Btf, typeId: Id) returns (sz: int)
    requires WfBtf(b)
    ensures sz == ResolvedSize(b, typeId)
  {
    hide WfBtf, Times;
    var nelems: nat, id: Id, i: nat := 1, typeId, 0;
    while i < MAX_RESOLVE_DEPTH && id < |b.types| && b.types[id].info.kind != VOID
      invariant i <= MAX_RESOLVE_DEPTH
      invariant SizeFrom(b, id, MAX_RESOLVE_DEPTH - i, nelems) == ResolvedSize(b, typeId)
    {
      var d := b.types[id];
      if HasSize(d.info.kind) {
        var size := OwnSize(d);
        if nelems > 0 && size > UINT32_MAX / nelems {
          return -E2BIG;
        }
        return Times(nelems, size);
      } else if PassesOn(d.info.kind) {
        id := d.word;
      } else if d.info.kind == ARRAY {
        ArrayIsWellFormed(b, id);
        if nelems > 0 && d.data.nelems > UINT32_MAX / nelems {
          return -E2BIG;
        }
        nelems, id := Times(nelems, d.data.nelems), d.data.elem;
      } else {
        return -EINVAL;
      }
      i := i + 1;
    }
    return -EINVAL;
  }

  lemma ArrayIsWellFormed(b: Btf, i: Id)
    requires WfBtf(b) && i < |b.types| && b.types[i].info.kind == ARRAY
    ensures b.types[i].data.ArrayData?
  {
    assert Grounded(b.types, RankOf(b));
  }
}
