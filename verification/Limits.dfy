/** Where deduplication falls short of its purpose. With forward resolution it may replace a
    struct by another one that only shares its name; without, it may leave equivalent structs
    apart. */
module Limits {
  import opened BtfTypes
  import opened TypeGraph
  import opened CanonMap
  import opened Equivalence
  import opened Dedup
  import opened RefPass
  import opened Meaning
  import opened Distinctness

  function Info0(kind: Kind, vlen: nat): Info { Info(kind, vlen, false, 0) }

  function Struct(name: nat, size: nat, members: seq<Member>): Desc {
    Desc(name, Info0(STRUCT, |members|), size, Members(members))
  }

  function Pointer(to: Id): Desc { Desc(0, Info0(PTR, 0), to, NoData) }

  const FOO: nat := 10
  const PAIR: nat := 20

  /** Two translation units share `struct pair { struct foo *p; struct foo *q; }`. The first one
      (7) knows `struct foo` (4, of eight bytes) behind `q` and a forward declaration (3) behind
      `p`. The second one (9) knows `struct foo` (10, of four bytes) behind `p` and the forward
      declaration behind `q`. */
  function Clash(): Graph {
    [ VOID_DESC
    , Desc(1, Info0(INT, 0), 4, IntData(32))
    , Desc(2, Info0(INT, 0), 8, IntData(64))
    , Desc(FOO, Info0(FWD, 0), 0, NoData)
    , Struct(FOO, 8, [Member(3, 2, 0)])
    , Pointer(3)
    , Pointer(4)
    , Struct(PAIR, 16, [Member(4, 5, 0), Member(5, 6, 64)])
    , Pointer(10)
    , Struct(PAIR, 16, [Member(4, 8, 0), Member(5, 5, 64)])
    , Struct(FOO, 4, [Member(3, 1, 0)])
    ]
  }

  const U: nat := UNPROCESSED

  /** The map when the struct pass reaches the second pair. */
  function Before(): IdMap { [0, 1, 2, 3, 4, U, U, 7, U, U, U] }

  /** A hypothetical map that settles the two pairs. */
  function Assumed(): Hypot { [U, U, U, 10, 3, 8, 5, 9, U, U, U] }

  ghost predicate GoodDesc(g: Graph, i: Id) {
    i < |g| && WellFormed(g[i]) && forall k :: 0 <= k < |Refs(g[i])| ==> Refs(g[i])[k] < |g|
  }

  lemma PointerFacts(to: Id)
    ensures WellFormed(Pointer(to)) && Refs(Pointer(to)) == [to]
  {
  }

  lemma PairFacts(p: Id, q: Id)
    ensures var d := Struct(PAIR, 16, [Member(4, p, 0), Member(5, q, 64)]); WellFormed(d) && Refs(d) == [p, q]
  {
  }

  lemma ClashWellFormed()
    ensures WfGraph(Clash()) && |Clash()| == 11
  {
    hide Clash, WellFormed, Refs;
    ClashVoid();
    var g := Clash();
    forall i {:trigger g[i]} | 0 <= i < 11 ensures GoodDesc(g, i) {
      ClashDesc(i);
    }
    assert forall i {:trigger g[i]} :: 0 <= i < 11 ==> WellFormed(g[i]);
  }

  lemma ClashVoid()
    ensures |Clash()| == 11 && Clash()[0] == VOID_DESC
  {
  }

  lemma ClashDesc(i: Id)
    requires i < 11
    ensures GoodDesc(Clash(), i)
  {
    PointerFacts(3);
    PointerFacts(4);
    PointerFacts(10);
    PairFacts(5, 6);
    PairFacts(8, 5);
  }

  lemma BeforeOk()
    ensures WfGraph(Clash()) && |Clash()| == 11 && MapOk(Clash(), false, Before())
  {
    hide Same, WfGraph;
    ClashWellFormed();
    forall i: Id | i < 11 ensures Same(Clash(), false, i, i) {
      hide Clash;
      EqualDescsSame(Clash(), false, i, i);
    }
  }

  /** Every id of the example is a root. */
  lemma RootsBefore(i: Id)
    requires i < 11
    ensures |Clash()| == 11 && WfMap(Clash(), Before()) && Resolve(Clash(), Before(), i) == i
        && ResolveFwd(Clash(), Before(), i) == i
  {
    BeforeOk();
  }

  /** The comparisons of the five recorded pairs. */
  lemma RecordedHeads()
    ensures WfGraph(Clash())
    ensures var g := Clash();
            && HeadVerdict(false, g[10], g[3]) == Leaf && HeadVerdict(false, g[3], g[4]) == Leaf
            && HeadVerdict(false, g[8], g[5]) == Descend && HeadVerdict(false, g[5], g[6]) == Descend
            && HeadVerdict(false, g[9], g[7]) == Descend
  {
    ClashWellFormed();
  }

  lemma RecordedChildren()
    ensures var g := Clash();
            && Refs(g[8]) == [10] && Refs(g[5]) == [3] && Refs(g[6]) == [4]
            && Refs(g[9]) == [8, 5] && Refs(g[7]) == [5, 6]
  {
  }

  /** A recorded pair is settled. */
  lemma Recorded(c: Id)
    requires c < 11 && Assumed()[c] != UNPROCESSED
    ensures |Clash()| == 11 && WfMap(Clash(), Before()) && PairOk(Clash(), Before(), Assumed(), Assumed()[c], c)
  {
    hide Resolve, WfMap, Clash;
    RootsBefore(c);
  }

  /** The obligations of a recorded pair. */
  lemma EntryOfRoots(c: Id)
    requires c < 11 && Assumed()[c] != UNPROCESSED
    ensures WfGraph(Clash()) && WfMap(Clash(), Before()) && EntryOk(Clash(), false, Before(), Assumed(), c)
  {
    hide PairOk, WfMap, WfGraph, HeadVerdict, Clash, Refs, WellFormed;
    RecordedHeads();
    RecordedChildren();
    Recorded(3);
    Recorded(4);
    Recorded(5);
    Recorded(6);
    assert Assumed() == [U, U, U, 10, 3, 8, 5, 9, U, U, U];
    assert c == 3 || c == 4 || c == 5 || c == 6 || c == 7;
  }

  lemma AssumedClosed()
    ensures WfGraph(Clash()) && WfMap(Clash(), Before())
    ensures Closed(Clash(), false, Before(), Assumed()) && PairOk(Clash(), Before(), Assumed(), 9, 7)
  {
    hide Resolve, WfMap, WfGraph, EntryOk, Clash;
    ClashWellFormed();
    RootsBefore(7);
    forall c: Id | c < 11 && Assumed()[c] != UNPROCESSED
      ensures WfGraph(Clash()) && WfMap(Clash(), Before()) && EntryOk(Clash(), false, Before(), Assumed(), c)
    {
      EntryOfRoots(c);
    }
  }

  // ---------------------------------------------------------------- the struct pass on this input

  lemma ClashHeads()
    ensures var g := Clash();
            && |g| == 11 && WfGraph(g) && g[0] == VOID_DESC
            && TagOf(g[1]) == Tag(1, INT) && TagOf(g[2]) == Tag(2, INT)
                && TagOf(g[3]) == TagOf(g[4]) == TagOf(g[10]) == Tag(FOO, STRUCT)
            && TagOf(g[5]) == TagOf(g[6]) == TagOf(g[8]) == Tag(0, PTR)
                && TagOf(g[7]) == TagOf(g[9]) == Tag(PAIR, STRUCT)
            && g[3].info.kind == FWD && g[4].info.kind == g[7].info.kind == g[9].info.kind == g[10].info.kind == STRUCT
            && g[4].word == 8 && g[10].word == 4 && g[7].name == g[9].name == PAIR && g[4].name == FOO
            && g[1].info.kind == g[2].info.kind == INT && g[5].info.kind == g[6].info.kind == g[8].info.kind == PTR
  {
    ClashWellFormed();
  }

  /** The primitive pass makes the two integers and the forward declaration canonical. */
  function AfterPrims(): IdMap { [0, 1, 2, 3, U, U, U, U, U, U, U] }

  lemma PrimsOfClash(m: IdMap)
    requires PrimResult(Clash(), false, m)
    ensures m == AfterPrims()
  {
    hide Clash, Same, EnumsCompatible, HasEnumClash, PrimState, WfMap;
    assert |m| == 11 && m[0] == 0 by { PrimVoid(m); }
    forall i: Id | 0 < i < 11 ensures m[i] == AfterPrims()[i] {
      if i <= 3 {
        PrimRoot(m, i);
      } else {
        NotPrim(m, i);
      }
    }
  }

  lemma PrimVoid(m: IdMap)
    requires PrimResult(Clash(), false, m)
    ensures |m| == 11 && m[0] == 0
  {
    ClashHeads();
    hide Clash, Same, EnumsCompatible, HasEnumClash, PrimState, LinkOk;
  }

  lemma NotPrim(m: IdMap, i: Id)
    requires PrimResult(Clash(), false, m) && 4 <= i < 11
    ensures |m| == 11 && m[i] == U
  {
    ClashHeads();
    hide Clash, EnumsCompatible, HasEnumClash, MapOk, TagOf;
    assert PrimState(Clash()[i].info.kind, i, m[i], true);
  }

  lemma PrimRoot(m: IdMap, i: Id)
    requires PrimResult(Clash(), false, m) && 1 <= i <= 3
    ensures |m| == 11 && m[i] == i
  {
    ClashHeads();
    hide Clash, EnumsCompatible, HasEnumClash, Coherent, Equiv, WfMap;
    var g := Clash();
    assert PrimState(g[i].info.kind, i, m[i], true);
    assert IsPrimKind(g[m[i]].info.kind) && TagOf(g[m[i]]) == TagOf(g[i]);
    assert m[i] in {1, 2, 3};
  }

  /** Shallow equality keeps structs of different names or sizes apart. */
  lemma ShallowHeads(i: Id, j: Id)
    requires i < 11 && j < 11 && |Clash()| == 11 && WfGraph(Clash()) && IsComposite(Clash()[i].info.kind)
    requires StructsShallowEqual(Clash()[i], Clash()[j])
    ensures Clash()[j].info.kind == Clash()[i].info.kind && Clash()[j].name == Clash()[i].name
        && Clash()[j].word == Clash()[i].word
  {
    hide Clash, WfGraph;
  }

  /** The first structs of their names become canonical. */
  lemma FirstStruct(m: IdMap, i: Id, m': IdMap)
    requires StructStep(Clash(), false, m, i, m')
        && ((i == 4 && m == AfterPrims()) || (i == 7 && m == AfterPrims()[4 := 4]))
    ensures m' == m[i := i]
  {
    ClashHeads();
    hide Clash, StructsShallowEqual, Adopts, Settles, WfMap, WfGraph, TagOf;
    if m' != m[i := i] {
      var j: Id, h: Hypot, list: seq<Id> :| Adopts(Clash(), false, m, i, j, h, list, m')
          && Duplicates(Clash(), false, m, i, j);
      assert m[j] == j by { AdoptsCanonical(m, i, j, h, list, m'); }
      ShallowHeads(i, j);
    }
  }

  lemma AdoptsCanonical(m: IdMap, i: Id, j: Id, h: Hypot, list: seq<Id>, m': IdMap)
    requires WfGraph(Clash()) && WfMap(Clash(), m) && Adopts(Clash(), false, m, i, j, h, list, m')
    ensures j < |m| && m[j] == j
  {
  }

  /** A recorded pair of two roots has recorded pairs of children, root by root. */
  lemma ChildRecorded(h: Hypot, c: Id, k: nat)
    requires WfGraph(Clash()) && WfMap(Clash(), Before()) && Closed(Clash(), false, Before(), h) && |Clash()| == 11
    requires c < 11 && |h| == 11 && h[c] < 11 && k < |Refs(Clash()[c])| && FwdLike(Clash()[h[c]]) == FwdLike(Clash()[c])
    requires Clash()[h[c]] != Clash()[c]
    ensures k < |Refs(Clash()[h[c]])|
    ensures var t, f := Refs(Clash()[h[c]])[k], Refs(Clash()[c])[k]; f < 11 && t < 11 && (t == f || h[f] == t)
  {
    hide Clash, WfMap, WfGraph, Resolve, ResolveFwd, HeadVerdict, Refs, FwdLike;
    assert EntryOk(Clash(), false, Before(), h, c);
    assert WellFormed(Clash()[c]) && WellFormed(Clash()[h[c]]) by { ClashDesc(c); ClashDesc(h[c]); }
    VerdictMeaning(false, Clash()[h[c]], Clash()[c]);
    var t, f := Refs(Clash()[h[c]])[k], Refs(Clash()[c])[k];
    assert PairOk(Clash(), Before(), h, t, f);
    RootsBefore(t);
    RootsBefore(f);
  }

  /** Every closed map that settles the two pairs records these. */
  lemma ForcedPairs(h: Hypot)
    requires WfGraph(Clash()) && WfMap(Clash(), Before()) && Closed(Clash(), false, Before(), h) && |Clash()| == 11
    requires PairOk(Clash(), Before(), h, 9, 7)
    ensures |h| == 11 && h[3] == 10 && h[4] == 3
  {
    ClashHeads();
    RecordedChildren();
    ClashDiffers();
    hide Clash, WfMap, WfGraph, Resolve, ResolveFwd, HeadVerdict, Refs, TagOf, Closed;
    assert |h| == 11 by { ClosedSize(Clash(), false, Before(), h); }
    RootsBefore(9);
    RootsBefore(7);
    assert h[7] == 9;
    ChildRecorded(h, 7, 0);
    ChildRecorded(h, 7, 1);
    ChildRecorded(h, 5, 0);
    ChildRecorded(h, 6, 0);
  }

  lemma ClashDiffers()
    ensures var g := Clash(); |g| == 11 && g[9] != g[7] && g[8] != g[5] && g[5] != g[6]
  {
  }

  // ---------------------------------------------------------------- the merge, in any order

  /** The map at any time during the merge. The flags tell whether the pair of the small struct
      and the forward declaration, and that of the forward declaration and the large struct, were
      merged. */
  ghost predicate Midway(m: IdMap, small: bool, large: bool) {
    && |m| == 11 && m[0] == 0 && m[1] == 1 && m[2] == 2 && m[4] == 4 && m[5] == U && m[6] == U && m[7] == 7 && m[8] == U
    && m[3] in {3, 4, 10} && m[9] in {U, 7} && m[10] in {U, 4}
    && (small ==> m[3] == 10 || m[10] == 4)
    && (large ==> m[3] == 4 || m[10] == 4)
  }

  lemma MidwayWf(m: IdMap, small: bool, large: bool)
    requires Midway(m, small, large)
    ensures |Clash()| == 11 && WfMap(Clash(), m)
  {
    ClashHeads();
    hide Clash, WfGraph, TagOf;
  }

  lemma MidwayRoots(m: IdMap, small: bool, large: bool)
    requires Midway(m, small, large)
    ensures |Clash()| == 11 && WfMap(Clash(), m)
    ensures forall i: Id {:trigger Resolve(Clash(), m, i)} :: i < 11 && i != 3 && i != 9 && i != 10 ==>
        Resolve(Clash(), m, i) == i
    ensures Resolve(Clash(), m, 10) == (if m[10] == 4 then 4 else 10) && Resolve(Clash(), m, 9) == (if m[9] == 7 then 7
        else 9)
    ensures Resolve(Clash(), m, 3) == if m[3] == 10 then Resolve(Clash(), m, 10) else m[3]
  {
    MidwayWf(m, small, large);
    hide Clash, WfMap;
    assert Resolve(Clash(), m, 4) == 4 && Resolve(Clash(), m, 7) == 7;
    assert m[10] == 4 ==> Resolve(Clash(), m, 10) == 4;
    assert m[10] != 4 ==> Resolve(Clash(), m, 10) == 10;
  }

  /** One round of the merge, for any recorded pair. */
  lemma MidwayRound(m: IdMap, small: bool, large: bool, t: Id, c: Id)
    requires Midway(m, small, large) && t < 11 && c < 11 && |Clash()| == 11 && TagOf(Clash()[t]) == TagOf(Clash()[c])
    requires (c == 3 ==> t == 10) && (c == 4 ==> t == 3)
    ensures Midway(MergeRound(Clash(), m, t, c), small || c == 3, large || c == 4)
  {
    ClashHeads();
    MidwayRoots(m, small, large);
    hide Clash, WfMap, WfGraph, Resolve;
    var m' := MergeRound(Clash(), m, t, c);
    if t in {3, 4, 10} {
      assert c in {3, 4, 10};
    } else if t in {7, 9} {
      assert c in {7, 9};
    } else {
      assert c !in {3, 4, 7, 9, 10};
      assert m' == m;
    }
  }

  lemma {:induction false} MidwayRounds(h: Hypot, list: seq<Id>)
    requires |Clash()| == 11 && |h| == 11 && h[3] == 10 && h[4] == 3
    requires forall k {:trigger list[k]} :: 0 <= k < |list| ==>
        list[k] < 11 && h[list[k]] < 11 && TagOf(Clash()[h[list[k]]]) == TagOf(Clash()[list[k]])
    ensures Midway(MergeRounds(Clash(), Before(), h, list), 3 in list, 4 in list)
  {
    hide Clash, MergeRound, TagOf;
    if list == [] {
      assert Before() == [0, 1, 2, 3, 4, U, U, 7, U, U, U];
    } else {
      var n := |list| - 1;
      MidwayRounds(h, list[..n]);
      var m := MergeRounds(Clash(), Before(), h, list[..n]);
      MidwayRound(m, 3 in list[..n], 4 in list[..n], h[list[n]], list[n]);
      assert list == list[..n] + [list[n]];
      assert (3 in list) == (3 in list[..n] || list[n] == 3) && (4 in list) == (4 in list[..n] || list[n] == 4);
    }
  }

  /** Whatever closed map the comparison found, and in whatever order it recorded it, the merge
      maps the small struct to the large one. */
  lemma MergeConflates(h: Hypot, list: seq<Id>)
    requires WfGraph(Clash()) && WfMap(Clash(), Before()) && Closed(Clash(), false, Before(), h) && |Clash()| == 11
    requires PairOk(Clash(), Before(), h, 9, 7) && Lists(h, list)
    ensures Midway(MergeRounds(Clash(), Before(), h, list), true, true)
  {
    hide Clash, WfMap, WfGraph, Resolve, ResolveFwd, Refs, TagOf, Closed, PairOk, MergeRounds, Midway;
    ForcedPairs(h);
    forall k {:trigger list[k]} | 0 <= k < |list|
      ensures list[k] < 11 && h[list[k]] < 11 && TagOf(Clash()[h[list[k]]]) == TagOf(Clash()[list[k]])
    {
      assert h[list[k]] != U;
      RecordedTag(h, list[k]);
    }
    MidwayRounds(h, list);
    assert 3 in list && 4 in list;
  }

  lemma RecordedTag(h: Hypot, c: Id)
    requires WfGraph(Clash()) && WfMap(Clash(), Before()) && Closed(Clash(), false, Before(), h) && |Clash()| == 11
    requires |h| == 11 && c < 11 && h[c] != U
    ensures h[c] < 11 && TagOf(Clash()[h[c]]) == TagOf(Clash()[c])
  {
    hide Clash, WfMap, HeadVerdict, Refs, TagOf, ChildrenOk;
    assert EntryOk(Clash(), false, Before(), h, c);
    VerdictMeaning(false, Clash()[h[c]], Clash()[c]);
  }

  /** The second pair is mapped to the first one. */
  lemma SecondPair(m': IdMap)
    requires StructStep(Clash(), false, Before(), 9, m')
    ensures |m'| == 11 && m'[4] == 4 && m'[10] == 4
  {
    ClashHeads();
    AssumedClosed();
    PairsShallowEqual();
    hide Clash, StructsShallowEqual, WfMap, WfGraph, TagOf, Closed, PairOk, MergeRounds, Lists;
    assert Settles(Clash(), false, Before(), 9, 7);
    assert Duplicates(Clash(), false, Before(), 9, 7);
    assert Before()[7] == 7 && Before()[9] == U;
    var j: Id, h: Hypot, list: seq<Id> :| Adopts(Clash(), false, Before(), 9, j, h, list, m')
        && Duplicates(Clash(), false, Before(), 9, j);
    ShallowHeads(9, j);
    assert j == 7;
    MergeConflates(h, list);
  }

  lemma PairsShallowEqual()
    ensures var g := Clash();
            && |g| == 11 && WellFormed(g[9]) && WellFormed(g[7]) && IsComposite(g[9].info.kind)
            && StructsShallowEqual(g[9], g[7])
  {
    ClashWellFormed();
  }

  /** The struct pass on this input. */
  lemma PassConflates(m: IdMap)
    requires StructPass(Clash(), false, m)
    ensures |m| == 11 && m[4] == 4 && m[10] == 4
  {
    ClashHeads();
    hide Clash, PrimResult, StructStep, WfGraph, TagOf;
    var g := Clash();
    var ms: seq<IdMap> :| StructTrace(g, false, ms) && |ms| == |g| && ms[|g| - 1] == m;
    PrimsOfClash(ms[0]);
    assert AfterPrims() == [0, 1, 2, 3, U, U, U, U, U, U, U];
    StepSkips(ms[0], 1, ms[1]);
    StepSkips(ms[1], 2, ms[2]);
    StepSkips(ms[2], 3, ms[3]);
    FirstStruct(ms[3], 4, ms[4]);
    StepSkips(ms[4], 5, ms[5]);
    StepSkips(ms[5], 6, ms[6]);
    FirstStruct(ms[6], 7, ms[7]);
    assert ms[7] == Before();
    StepSkips(ms[7], 8, ms[8]);
    SecondPair(ms[9]);
    StepSkips(ms[9], 10, ms[10]);
  }

  lemma StepSkips(m: IdMap, i: Id, m': IdMap)
    requires i < 11 && |m| == 11 && StructStep(Clash(), false, m, i, m')
    requires Mapped(m[i]) || !IsComposite(Clash()[i].info.kind)
    ensures m' == m
  {
    hide Clash, Adopts, NoDuplicates, WfMap, WfGraph;
  }

  // ---------------------------------------------------------------- a whole run

  /** The input is as it should be, so deduplication cannot refuse it. */
  lemma ClashProper()
    ensures !Malformed(Clash()) && !HasRefCycle(Clash())
  {
    ClashHeads();
    hide Clash, Refs, WfGraph, TagOf, Edge;
    forall i, k {:trigger Refs(Clash()[i])[k]} | 0 <= i < 11 && 0 <= k < |Refs(Clash()[i])| && Refs(Clash()[i])[k] < 11
      ensures !IsVariable(Clash()[Refs(Clash()[i])[k]].info.kind)
    {
      assert Refs(Clash()[i])[k] in {0, 1, 2, 3, 4, 5, 6, 7, 8, 9, 10};
    }
    ClashAcyclic();
  }

  lemma ClashAcyclic()
    ensures !HasRefCycle(Clash())
  {
    ClashHeads();
    hide Clash, Refs, WfGraph, TagOf, HasRefCycle, Edge;
    var order: seq<Id> := [5, 6, 8];
    forall p: nat, r: Id {:trigger Edge(Clash(), order[p], r)} | p < 3 && Edge(Clash(), order[p], r)
      ensures r in {3, 4, 10}
    {
      PointerEdge(order[p], r);
    }
    assert order[0] == 5 && order[1] == 6 && order[2] == 8;
    assert AllOrdered(Clash(), order);
    NoCycle(Clash(), order);
  }

  lemma PointerEdge(i: Id, r: Id)
    requires i in {5, 6, 8} && Edge(Clash(), i, r)
    ensures r in {3, 4, 10}
  {
    RecordedChildren();
    ClashHeads();
    hide Clash, Refs, WfGraph, TagOf;
  }

  /** Meanings are not kept when forward declarations are resolved: a run maps the struct of four
      bytes to the one of eight bytes, which is neither a forward declaration nor its definition.
      Only outlines survive. */
  method ForwardsConflate(tableSize: nat) returns (err: int, ghost ids: seq<nat>, out: seq<Desc>)
    ensures err == 0 && |Clash()| == |ids| == 11 && ids[10] == ids[4]
    ensures Clash()[10].info.kind == Clash()[4].info.kind == STRUCT && Clash()[10].word == 4 && Clash()[4].word == 8
    ensures !KeepsMeaning(Clash(), PLAIN, ids, out)
  {
    ClashHeads();
    ClashProper();
    hide Clash, WfGraph, TagOf, Malformed, HasRefCycle, KeepsMeaning, KeepsTags, KeepsReadings, ForwardsStay,
        StructPass, Deduplicated, WfMap;
    out, ids := [], [];
    var d := new Dedup(Clash(), false, tableSize);
    err := d.Run();
    assert err == 0;
    out := d.types[..d.nrTypes + 1];
    ids := d.FinalIds();
    ghost var m :| StructPass(Clash(), false, m) && MapKept(m, d.idMap[..]);
    PassConflates(m);
    Conflated(d.idMap[..], d.hypotMap[..], out);
  }

  lemma Conflated(m: IdMap, num: seq<nat>, out: Graph)
    requires WfGraph(Clash()) && |Clash()| == 11 && WfMap(Clash(), m) && |num| == |m| && m[4] == 4 && m[10] == 4
    ensures var ids := NewIds(Clash(), m, num);
            |ids| == 11 && ids[10] == ids[4] && !KeepsMeaning(Clash(), PLAIN, ids, out)
  {
    ClashHeads();
    hide Clash, WfGraph, WfMap, TagOf, Refs;
    var g, ids := Clash(), NewIds(Clash(), m, num);
    assert Resolve(g, m, 4) == 4 && Resolve(g, m, 10) == 4;
    assert ids[10] == ids[4];
    if KeepsMeaning(g, PLAIN, ids, out) {
      assert Unfold(g, PLAIN, 10, 1) == Unfold(g, PLAIN, 4, 1);
      assert Shape(g[10]) == Shape(g[4]);
      ShapeWord(g[10]);
      ShapeWord(g[4]);
    }
  }

  lemma ShapeWord(d: Desc)
    requires IsComposite(d.info.kind)
    ensures Shape(d).word == d.word
  {
  }

  // ---------------------------------------------------------------- equivalent, but not merged

  /** `struct pair { int *p; int *q; }` twice. The first one (3) has one pointer descriptor for
      both members, the second one (6) has two. */
  function Split(): Graph {
    [ VOID_DESC
    , Desc(1, Info0(INT, 0), 4, IntData(32))
    , Pointer(1)
    , Struct(PAIR, 16, [Member(4, 2, 0), Member(5, 2, 64)])
    , Pointer(1)
    , Pointer(1)
    , Struct(PAIR, 16, [Member(4, 4, 0), Member(5, 5, 64)])
    ]
  }

  function SplitMap(): IdMap { [0, 1, U, 3, U, U, U] }

  lemma SplitWellFormed()
    ensures WfGraph(Split()) && |Split()| == 7
  {
    hide Split, WellFormed, Refs;
    SplitVoid();
    var g := Split();
    forall i {:trigger g[i]} | 0 <= i < 7 ensures GoodDesc(g, i) {
      SplitDesc(i);
    }
    assert forall i {:trigger g[i]} :: 0 <= i < 7 ==> WellFormed(g[i]);
  }

  lemma SplitVoid()
    ensures |Split()| == 7 && Split()[0] == VOID_DESC
  {
  }

  lemma SplitDesc(i: Id)
    requires i < 7
    ensures GoodDesc(Split(), i)
  {
    PointerFacts(1);
    PairFacts(2, 2);
    PairFacts(4, 5);
  }

  lemma SplitOk()
    ensures WfGraph(Split()) && |Split()| == 7 && MapOk(Split(), true, SplitMap())
  {
    hide Same;
    SplitWellFormed();
    forall i: Id | i < 7 ensures Same(Split(), true, i, i) {
      hide Split;
      EqualDescsSame(Split(), true, i, i);
    }
  }

  lemma SplitParts()
    ensures var g := Split();
            && |g| == 7 && WfGraph(g)
            && g[4] == g[2] && g[5] == g[2] && Refs(g[6]) == [4, 5] && Refs(g[3]) == [2, 2]
            && IsComposite(g[6].info.kind) && StructsShallowEqual(g[6], g[3])
                && HeadVerdict(true, g[6], g[3]) == Descend
  {
    SplitWellFormed();
  }

  lemma SplitEquivalent()
    ensures WfGraph(Split()) && |Split()| == 7 && Same(Split(), true, 6, 3)
  {
    hide Split, Same, Shape, Refs, WfGraph, HeadVerdict, StructsShallowEqual;
    var g := Split();
    SplitParts();
    DescendSameShape(true, g[6], g[3]) by { SplitHeads(); }
    EqualDescsSame(g, true, 4, 2);
    EqualDescsSame(g, true, 5, 2);
    SameFromParts(g, true, 6, 3);
  }

  lemma SplitHeads()
    ensures |Split()| == 7 && WellFormed(Split()[6]) && WellFormed(Split()[3])
  {
    SplitWellFormed();
  }

  lemma SplitRoots(i: Id)
    requires i < 7
    ensures |Split()| == 7 && WfMap(Split(), SplitMap()) && Resolve(Split(), SplitMap(), i) == i
        && ResolveFwd(Split(), SplitMap(), i) == i
  {
    SplitOk();
  }

  /** One pointer cannot be paired with two, so no hypothetical map settles the structs although
      they mean the same. */
  lemma EquivalentStructsStayApart()
    ensures var g, m := Split(), SplitMap();
            && WfGraph(g) && |g| == 7 && MapOk(g, true, m) && Same(g, true, 6, 3) && StructsShallowEqual(g[6], g[3])
            && m[3] == 3 && !Duplicates(g, true, m, 6, 3)
  {
    hide Split, Same, MapOk, WfGraph, StructsShallowEqual, Closed, PairOk;
    SplitOk();
    SplitEquivalent();
    SplitParts();
    var g, m := Split(), SplitMap();
    MapOkIsWf(g, true, m);
    forall w | Closed(g, true, m, w) ensures |w| == 7 && !PairOk(g, m, w, 6, 3) {
      assert |w| == 7 by { ClosedSize(g, true, m, w); }
      if PairOk(g, m, w, 6, 3) {
        Paired(w, 0);
        Paired(w, 1);
      }
    }
  }

  // ---------------------------------------------------------------- a run that keeps both

  lemma SplitKinds()
    ensures var g := Split();
            && |g| == 7 && WfGraph(g) && g[0] == VOID_DESC && g[1].info.kind == INT
            && g[2].info.kind == g[4].info.kind == g[5].info.kind == PTR && g[3].info.kind == g[6].info.kind == STRUCT
            && (forall i: Id :: i < 7 ==> (TagOf(g[i]) == TagOf(g[1]) <==> i == 1))
  {
    SplitWellFormed();
  }

  /** The primitive pass makes the integer canonical. */
  lemma PrimsOfSplit(m: IdMap)
    requires PrimResult(Split(), true, m)
    ensures m == [0, 1, U, U, U, U, U]
  {
    SplitKinds();
    hide Split, EnumsCompatible, HasEnumClash, Coherent, Equiv, TagOf, WfGraph, Unresolved;
    assert m[0] == 0 && m[1] == 1 by { SplitPrimRoots(m); }
    forall i: Id | 1 < i < 7 ensures m[i] == U {
      assert PrimState(Split()[i].info.kind, i, m[i], true);
    }
  }

  lemma SplitPrimRoots(m: IdMap)
    requires PrimResult(Split(), true, m)
    ensures |m| == 7 && m[0] == 0 && m[1] == 1
  {
    SplitKinds();
    hide Split, EnumsCompatible, HasEnumClash, Coherent, Equiv, TagOf, WfGraph, Unresolved;
    assert PrimState(Split()[1].info.kind, 1, m[1], true);
    assert TagOf(Split()[m[1]]) == TagOf(Split()[1]);
  }

  lemma SplitSkips(m: IdMap, i: Id, m': IdMap)
    requires i < 7 && |m| == 7 && StructStep(Split(), true, m, i, m')
    requires Mapped(m[i]) || !IsComposite(Split()[i].info.kind)
    ensures m' == m
  {
    hide Split, Adopts, NoDuplicates, WfMap, WfGraph, MapOk;
  }

  /** Both structs become canonical. */
  lemma SplitFiles(m: IdMap, i: Id, m': IdMap)
    requires StructStep(Split(), true, m, i, m')
    requires (i == 3 && m == [0, 1, U, U, U, U, U]) || (i == 6 && m == SplitMap())
    ensures m' == m[i := i]
  {
    SplitKinds();
    EquivalentStructsStayApart();
    hide Split, Adopts, Settles, WfMap, WfGraph, MapOk, TagOf, StructsShallowEqual, Same;
    if m' != m[i := i] {
      var j: Id, h: Hypot, list: seq<Id> :| Adopts(Split(), true, m, i, j, h, list, m')
          && Duplicates(Split(), true, m, i, j);
      assert m[j] == j by { SplitAdopts(m, i, j, h, list, m'); }
      SplitShallow(i, j);
    }
  }

  lemma SplitAdopts(m: IdMap, i: Id, j: Id, h: Hypot, list: seq<Id>, m': IdMap)
    requires WfGraph(Split()) && WfMap(Split(), m) && Adopts(Split(), true, m, i, j, h, list, m')
    ensures j < |m| && m[j] == j
  {
  }

  lemma SplitShallow(i: Id, j: Id)
    requires i < 7 && j < 7 && |Split()| == 7 && WfGraph(Split()) && IsComposite(Split()[i].info.kind)
    requires StructsShallowEqual(Split()[i], Split()[j])
    ensures Split()[j].info.kind == Split()[i].info.kind
  {
    hide Split, WfGraph;
  }

  lemma SplitPass(m: IdMap)
    requires StructPass(Split(), true, m)
    ensures |m| == 7 && m[3] == 3 && m[6] == 6
  {
    SplitKinds();
    hide Split, PrimResult, StructStep, WfGraph, TagOf;
    var ms: seq<IdMap> :| StructTrace(Split(), true, ms) && |ms| == 7 && ms[6] == m;
    PrimsOfSplit(ms[0]);
    SplitSkips(ms[0], 1, ms[1]);
    SplitSkips(ms[1], 2, ms[2]);
    SplitFiles(ms[2], 3, ms[3]);
    assert ms[3] == SplitMap();
    SplitSkips(ms[3], 4, ms[4]);
    SplitSkips(ms[4], 5, ms[5]);
    SplitFiles(ms[5], 6, ms[6]);
  }

  lemma SplitProper()
    ensures !Malformed(Split()) && !HasRefCycle(Split())
  {
    SplitKinds();
    SplitAcyclic();
    hide Split, Refs, WfGraph, TagOf, HasRefCycle;
    forall i, k {:trigger Refs(Split()[i])[k]} | 0 <= i < 7 && 0 <= k < |Refs(Split()[i])| && Refs(Split()[i])[k] < 7
      ensures !IsVariable(Split()[Refs(Split()[i])[k]].info.kind)
    {
      assert Refs(Split()[i])[k] in {0, 1, 2, 3, 4, 5, 6};
    }
  }

  lemma SplitAcyclic()
    ensures !HasRefCycle(Split())
  {
    SplitKinds();
    hide Split, Refs, WfGraph, TagOf, HasRefCycle, Edge;
    var order: seq<Id> := [2, 4, 5];
    forall p: nat, r: Id {:trigger Edge(Split(), order[p], r)} | p < 3 && Edge(Split(), order[p], r)
      ensures r == 1
    {
      SplitEdge(order[p], r);
    }
    assert order[0] == 2 && order[1] == 4 && order[2] == 5;
    assert AllOrdered(Split(), order);
    NoCycle(Split(), order);
  }

  lemma SplitEdge(i: Id, r: Id)
    requires i in {2, 4, 5} && Edge(Split(), i, r)
    ensures r == 1
  {
    PointerFacts(1);
  }

  /** Deduplication misses equivalent structs: a run keeps both in its output, under ids of their
      own. */
  method StructsStayApart(tableSize: nat) returns (err: int, ghost ids: seq<nat>, out: seq<Desc>)
    ensures err == 0 && |Split()| == |ids| == 7 && WfGraph(Split()) && Same(Split(), true, 6, 3)
    ensures ids[3] != ids[6] && ids[3] < |out| && ids[6] < |out|
    ensures TagOf(out[ids[3]]) == TagOf(out[ids[6]]) == Tag(PAIR, STRUCT)
  {
    SplitKinds();
    SplitEquivalent();
    SplitProper();
    SplitNames();
    hide Split, WfGraph, TagOf, Malformed, HasRefCycle, KeepsMeaning, KeepsReadings, ForwardsStay, StructPass,
        Deduplicated, WfMap, Same, InputDecides;
    out, ids := [], [];
    var d := new Dedup(Split(), true, tableSize);
    err := d.Run();
    assert err == 0;
    out := d.types[..d.nrTypes + 1];
    ids := d.FinalIds();
    ghost var m :| StructPass(Split(), true, m) && MapKept(m, d.idMap[..]);
    SplitPass(m);
    ghost var g1 :| Deduplicated(Split(), d.strong, g1, d.idMap[..], d.hypotMap[..], out);
    Apart(d.strong, g1, d.idMap[..], d.hypotMap[..], out);
  }

  lemma SplitNames()
    ensures |Split()| == 7 && TagOf(Split()[3]) == TagOf(Split()[6]) == Tag(PAIR, STRUCT)
  {
  }

  lemma Apart(exact: bool, g1: Graph, m: IdMap, num: seq<nat>, out: Graph)
    requires Deduplicated(Split(), exact, g1, m, num, out) && |m| == 7 && m[3] == 3 && m[6] == 6
    ensures |Split()| == 7 && WfMap(Split(), m) && |num| == 7
    ensures var ids := NewIds(Split(), m, num); |ids| == 7 && ids[3] != ids[6]
  {
    SplitKinds();
    hide Split, WfGraph, TagOf, Refs, Numbering, Rewritten, Same, IsOutput;
    DedupSizes(Split(), exact, g1, m, num, out);
    if NewId(Split(), m, num, 3) == NewId(Split(), m, num, 6) {
      NewIdInjective(Split(), m, num, 3, 6);
    }
  }

  lemma ClosedSize(g: Graph, exact: bool, m: IdMap, w: Hypot)
    requires WfGraph(g) && WfMap(g, m) && Closed(g, exact, m, w)
    ensures |w| == |g|
  {
  }

  /** The pointers that the two structs pair with each other. */
  lemma Paired(w: Hypot, k: nat)
    requires WfGraph(Split()) && |Split()| == 7 && WfMap(Split(), SplitMap()) && k < 2
    requires Closed(Split(), true, SplitMap(), w) && PairOk(Split(), SplitMap(), w, 6, 3)
    ensures |w| == 7 && w[2] == 4 + k
  {
    hide Split, WfGraph, Resolve, ResolveFwd, WfMap, Refs, HeadVerdict, StructsShallowEqual;
    var g, m := Split(), SplitMap();
    SplitParts();
    SplitRoots(6);
    SplitRoots(3);
    SplitRoots(2);
    SplitRoots(4 + k);
    assert w[3] == 6;
    assert EntryOk(g, true, m, w, 3);
    assert PairOk(g, m, w, Refs(g[6])[k], Refs(g[3])[k]);
  }
}
