/** What deduplication promises: copies of types, as several compilation units bring them, end
    up under one id. */
module Copies {
  import opened BtfTypes
  import opened TypeGraph
  import opened CanonMap
  import opened Equivalence
  import opened RefPass
  import opened Meaning
  import opened Fields
  import opened Distinctness
  import D = Dedup

  // ---------------------------------------------------------------- copies

  /** Every type stands for itself. */
  function Itself(g: Graph): IdMap { seq(|g|, i requires 0 <= i < |g| => i) }

  lemma ItselfIsMap(g: Graph)
    requires WfGraph(g)
    ensures WfMap(g, Itself(g)) && forall i: Id {:trigger Resolve(g, Itself(g), i)} :: i < |g| ==>
        Resolve(g, Itself(g), i) == i
  {
    hide WellFormed, Refs;
  }

  ghost predicate Injective(h: Hypot) {
    forall a, b {:trigger h[a], h[b]} :: 0 <= a < |h| && 0 <= b < |h| && h[a] == h[b] != UNPROCESSED ==> a == b
  }

  /** `h` takes types to copies of theirs: a copy is alike but for its type ids, and those lead to
      the copies of what the original refers to, or to the same types. */
  ghost predicate AreCopies(g: Graph, h: Hypot) {
    WfGraph(g) && WfMap(g, Itself(g)) && Agreement(g, true, Itself(g), h) && Injective(h)
  }

  /** One type is a copy of the other. */
  ghost predicate IsCopy(g: Graph, a: Id, b: Id) {
    exists h: Hypot :: AreCopies(g, h) && a < |h| && h[a] == b
  }

  lemma AlikeTransitive(d: Desc, e: Desc, f: Desc)
    requires AlikeButIds(d, e) && AlikeButIds(e, f)
    ensures AlikeButIds(d, f) && AlikeButIds(e, d)
  {
  }

  /** What two children have in common before anything is deduplicated they keep, unless a
      forward declaration was resolved. */
  lemma ChildStays(g: Graph, m: IdMap, h: Hypot, cand: Id, canon: Id)
    requires WfGraph(g) && WfMap(g, m) && WfMap(g, Itself(g)) && WfHypot(g, h) && FwdsStay(g, m)
    requires ChildAgrees(g, Itself(g), h, cand, canon)
    ensures ChildAgrees(g, m, h, cand, canon)
  {
    ItselfIsMap(g);
    hide Resolve, WfMap, WellFormed, Refs;
  }

  /** No forward declaration of a struct or union is resolved. */
  ghost predicate FwdsStay(g: Graph, m: IdMap)
    requires WfMap(g, m)
  {
    forall i: Id {:trigger Resolve(g, m, i)} :: i < |g| && g[i].info.kind == FWD ==>
        g[Resolve(g, m, i)].info.kind == FWD
  }

  lemma CopiesAgree(g: Graph, m: IdMap, h: Hypot, exact: bool)
    requires AreCopies(g, h) && WfMap(g, m) && FwdsStay(g, m)
    ensures Agreement(g, exact, m, h)
  {
    hide WfMap, AlikeButIds, WellFormed, Refs, ChildAgrees, FwdsStay;
    forall c {:trigger h[c]} | 0 <= c < |g| && h[c] != UNPROCESSED ensures Agrees(g, exact, m, h, h[c], c) {
      assert Agrees(g, true, Itself(g), h, h[c], c);
      ChildrenStay(g, m, h, g[h[c]], g[c]);
    }
  }

  lemma ChildrenStay(g: Graph, m: IdMap, h: Hypot, d: Desc, e: Desc)
    requires WfGraph(g) && WfMap(g, m) && WfMap(g, Itself(g)) && WfHypot(g, h) && FwdsStay(g, m)
    requires AlikeButIds(d, e) && ChildrenAgree(g, Itself(g), h, d, e)
    ensures ChildrenAgree(g, m, h, d, e)
  {
    hide WfMap, WellFormed, Refs, ChildAgrees, FwdsStay, WfGraph;
    forall a: Id, b: Id | ChildAgrees(g, Itself(g), h, a, b) ensures ChildAgrees(g, m, h, a, b) {
      ChildStays(g, m, h, a, b);
    }
  }

  /** The map back from the copies. */
  ghost function Inverse(h: Hypot): (k: Hypot)
    ensures |k| == |h|
    ensures forall c {:trigger k[c]} :: 0 <= c < |h| && k[c] != UNPROCESSED ==> k[c] < |h| && h[k[c]] == c
    ensures forall a {:trigger h[a]} :: 0 <= a < |h| && h[a] < |h| && h[a] != UNPROCESSED && Injective(h) ==>
        k[h[a]] == a
  {
    seq(|h|, c requires 0 <= c < |h| => Before(h, c))
  }

  ghost function Before(h: Hypot, c: Id): (b: nat)
    ensures b != UNPROCESSED ==> b < |h| && h[b] == c
    ensures forall a: Id {:trigger h[a]} :: a < |h| && h[a] == c && c != UNPROCESSED && Injective(h) ==> b == a
  {
    if exists a: Id :: a < |h| && h[a] == c then var a: Id :| a < |h| && h[a] == c; a else UNPROCESSED
  }

  lemma InverseCopies(g: Graph, h: Hypot)
    requires AreCopies(g, h)
    ensures AreCopies(g, Inverse(h))
  {
    hide WfMap, AlikeButIds, WellFormed, Refs, ChildrenAgree;
    var k := Inverse(h);
    GraphFits(g, Itself(g));
    forall c {:trigger k[c]} | 0 <= c < |g| && k[c] != UNPROCESSED ensures Agrees(g, true, Itself(g), k, k[c], c) {
      assert Agrees(g, true, Itself(g), h, c, k[c]);
      ChildrenInverse(g, h, g[c], g[k[c]]);
    }
  }

  lemma ChildrenInverse(g: Graph, h: Hypot, d: Desc, e: Desc)
    requires AreCopies(g, h) && AlikeButIds(d, e) && ChildrenAgree(g, Itself(g), h, d, e)
    ensures AlikeButIds(e, d) && e.info == d.info && ChildrenAgree(g, Itself(g), Inverse(h), e, d)
  {
    hide WfMap, WellFormed, Refs, ChildAgrees, WfGraph, Agrees;
    forall a: Id, b: Id | ChildAgrees(g, Itself(g), h, a, b) ensures ChildAgrees(g, Itself(g), Inverse(h), b, a) {
      ChildInverse(g, h, a, b);
    }
  }

  lemma ChildInverse(g: Graph, h: Hypot, a: Id, b: Id)
    requires AreCopies(g, h) && ChildAgrees(g, Itself(g), h, a, b)
    ensures ChildAgrees(g, Itself(g), Inverse(h), b, a)
  {
    ItselfIsMap(g);
    GraphFits(g, Itself(g));
    hide WfMap, WellFormed, Refs, Agrees;
  }

  // ---------------------------------------------------------------- the struct pass

  /** Nothing in the map resolves a forward declaration if none shares its tag with a definition,
      or none is to be resolved; and a struct is mapped to one that is alike. */
  lemma PlainShapes(g: Graph, exact: bool, m: IdMap, i: Id)
    requires WfGraph(g) && MapOk(g, exact, m) && (exact || SharedTags(g) == {}) && i < |g|
    ensures Shape(g[Resolve(g, m, i)]) == Shape(g[i])
  {
    ResolveSame(g, exact, m, i);
    PlainCoherent(g, exact);
    var r := Resolve(g, m, i);
    hide Shape, Refs, WfMap, Resolve, WellFormed, TagOf, Coherent;
    assert Unfold(g, PLAIN, i, 1) == Unfold(g, PLAIN, r, 1);
  }

  lemma NoneResolved(g: Graph, exact: bool, m: IdMap)
    requires WfGraph(g) && MapOk(g, exact, m) && (exact || SharedTags(g) == {})
    ensures WfMap(g, m) && FwdsStay(g, m)
  {
    hide Shape, Refs, WfMap, Resolve, WellFormed, Same;
    forall i: Id | i < |g| && g[i].info.kind == FWD ensures g[Resolve(g, m, i)].info.kind == FWD {
      PlainShapes(g, exact, m, i);
      ShapeAndRefs(g[i], g[Resolve(g, m, i)]);
    }
  }

  /** A copy duplicates its canonical original. */
  lemma CopyDuplicates(g: Graph, exact: bool, m: IdMap, h: Hypot, x: Id)
    requires AreCopies(g, h) && MapOk(g, exact, m) && (exact || SharedTags(g) == {})
    requires x < |g| && h[x] != UNPROCESSED && IsComposite(g[x].info.kind)
    ensures WfMap(g, m) && D.Duplicates(g, exact, m, h[x], x)
  {
    NoneResolved(g, exact, m);
    CopiesAgree(g, m, h, exact);
    AgreementExactly(g, exact, m, h);
    assert Agrees(g, true, Itself(g), h, h[x], x);
    assert WellFormed(g[x]) && WellFormed(g[h[x]]);
    hide Closed, Agreement, MapOk, Same, Refs, WfGraph, FwdsStay, ChildrenAgree, WfMap;
    assert PairOk(g, m, h, h[x], x);
    assert D.Settles(g, exact, m, h[x], x);
  }

  /** A round of the merge maps a struct to another one, and only once. */
  lemma RoundOnStruct(g: Graph, m: IdMap, t: Id, c: Id, x: Id)
    requires |m| == |g| && x < |g| && IsComposite(g[x].info.kind)
    ensures var m' := MergeRound(g, m, t, c);
            |m'| == |m| && (m'[x] == m[x] || (!Mapped(m[x]) && Mapped(m'[x]) && m'[x] != x))
  {
    if WfMap(g, m) {
      GraphFits(g, m);
    }
    hide WfMap, Resolve;
  }

  lemma {:induction false} RoundsOnStruct(g: Graph, m: IdMap, h: Hypot, list: seq<Id>, x: Id)
    requires |m| == |g| && x < |g| && IsComposite(g[x].info.kind)
    ensures var m' := MergeRounds(g, m, h, list);
            |m'| == |m| && (m'[x] == m[x] || (!Mapped(m[x]) && Mapped(m'[x]) && m'[x] != x))
  {
    hide MergeRound;
    if list != [] {
      var n := |list| - 1;
      RoundsOnStruct(g, m, h, list[..n], x);
      if list[n] < |h| {
        RoundOnStruct(g, MergeRounds(g, m, h, list[..n]), h[list[n]], list[n], x);
      }
    }
  }

  /** One step of the pass: a struct becomes canonical in its own step only, and only if no
      canonical struct is a duplicate. */
  lemma StepOnStruct(g: Graph, exact: bool, m: IdMap, i: Id, m': IdMap, x: Id)
    requires D.StructStep(g, exact, m, i, m') && x < |g| && IsComposite(g[x].info.kind)
    ensures |m'| == |g| == |m| && WfMap(g, m)
    ensures Mapped(m[x]) ==> m'[x] == m[x]
    ensures m'[x] == x != m[x] ==> x == i && D.NoDuplicates(g, exact, m, x)
    ensures x == i ==> Mapped(m'[x])
  {
    GraphFits(g, m);
    hide WfGraph, WfMap, MapOk, Closed, PairOk, D.Lists, MergeRounds, D.NoDuplicates, D.Duplicates;
    if !Mapped(m[i]) && IsComposite(g[i].info.kind) && m' != m[i := i] {
      var j: Id, h: Hypot, list: seq<Id> :| D.Adopts(g, exact, m, i, j, h, list, m') && D.Duplicates(g, exact, m, i, j);
      RoundsOnStruct(g, m, h, list, x);
    }
  }

  lemma {:induction false} TraceMapped(g: Graph, exact: bool, ms: seq<IdMap>, j: nat, k: nat, x: Id)
    requires D.StructTrace(g, exact, ms) && j <= k < |ms| && x < |g| && IsComposite(g[x].info.kind)
    ensures |ms[j]| == |ms[k]| == |g|
    ensures Mapped(ms[j][x]) ==> ms[k][x] == ms[j][x]
    ensures 0 < x <= k ==> Mapped(ms[k][x])
    decreases k
  {
    hide D.StructStep, D.PrimsDone, D.PrimsUpTo, D.HasEnumClash, WfGraph;
    if k == 0 {
      MapOkIsWf(g, exact, ms[0]);
    } else {
      StepOnStruct(g, exact, ms[k - 1], k, ms[k], x);
      if j < k {
        TraceMapped(g, exact, ms, j, k - 1, x);
      } else {
        TraceMapped(g, exact, ms, k - 1, k - 1, x);
      }
    }
  }

  /** A canonical struct had no canonical duplicate when it was reached. */
  lemma {:induction false} TraceCanonical(g: Graph, exact: bool, ms: seq<IdMap>, k: nat, x: Id)
    requires D.StructTrace(g, exact, ms) && k < |ms| && 0 < x < |g| && IsComposite(g[x].info.kind)
    requires |ms[k]| == |g| && ms[k][x] == x
    ensures 0 < x <= k && ms[x][..] == ms[x] && |ms[x - 1]| == |ms[x]| == |g| && ms[x][x] == x
    ensures D.StructStep(g, exact, ms[x - 1], x, ms[x]) && WfGraph(g) && WfMap(g, ms[x - 1])
    ensures D.NoDuplicates(g, exact, ms[x - 1], x)
    decreases k
  {
    hide D.StructStep, D.HasEnumClash, WfGraph, D.NoDuplicates, D.PrimsDone, D.PrimsUpTo, MapOk;
    if k == 0 {
      NotYet(g, exact, ms[0], x);
    } else {
      StepOnStruct(g, exact, ms[k - 1], k, ms[k], x);
      if ms[k - 1][x] == x {
        TraceCanonical(g, exact, ms, k - 1, x);
      } else {
        StepGraph(g, exact, ms[k - 1], k, ms[k]);
      }
    }
  }

  lemma NotYet(g: Graph, exact: bool, m: IdMap, x: Id)
    requires D.PrimResult(g, exact, m) && 0 < x < |g| && IsComposite(g[x].info.kind)
    ensures |m| == |g| && m[x] != x
  {
    hide Refs, WellFormed, D.HasEnumClash, Same;
  }

  lemma StepGraph(g: Graph, exact: bool, m: IdMap, i: Id, m': IdMap)
    requires D.StructStep(g, exact, m, i, m')
    ensures WfGraph(g) && WfMap(g, m) && MapOk(g, exact, m)
  {
  }

  /** Of a struct and its copy at most one stays canonical, whatever else the graph holds. */
  lemma OneOfTwoCopies(g: Graph, exact: bool, m: IdMap, a: Id, b: Id)
    requires D.StructPass(g, exact, m) && (exact || SharedTags(g) == {}) && |m| == |g|
    requires a < |g| && b < |g| && a != b && IsCopy(g, a, b) && IsComposite(g[a].info.kind)
    ensures !(m[a] == a && m[b] == b)
  {
    hide D.StructTrace, WfGraph, AlikeButIds, Agreement, WfMap;
    var h: Hypot :| AreCopies(g, h) && a < |h| && h[a] == b;
    CopyKind(g, h, a);
    if m[a] == a && m[b] == b {
      if a < b {
        LaterCopy(g, exact, m, h, a);
      } else {
        InverseCopies(g, h);
        LaterCopy(g, exact, m, Inverse(h), b);
      }
    }
  }

  lemma CopyKind(g: Graph, h: Hypot, a: Id)
    requires AreCopies(g, h) && a < |h| && h[a] < |g|
    ensures |h| == |g| < UNPROCESSED && 0 < h[a] && 0 < a && h[a] != UNPROCESSED
    ensures g[h[a]].info.kind == g[a].info.kind && AlikeButIds(g[h[a]], g[a])
  {
    GraphFits(g, Itself(g));
    hide WfMap, ChildrenAgree, Refs, WellFormed;
    assert Agrees(g, true, Itself(g), h, h[a], a);
  }

  /** The later one of two canonical structs is not a copy of the earlier one. */
  lemma LaterCopy(g: Graph, exact: bool, m: IdMap, h: Hypot, x: Id)
    requires D.StructPass(g, exact, m) && (exact || SharedTags(g) == {}) && |m| == |g| && AreCopies(g, h)
    requires x < |h| && h[x] < |g| && x < h[x] && IsComposite(g[x].info.kind)
    ensures !(m[x] == x && m[h[x]] == h[x])
  {
    hide D.StructTrace, WfGraph, AlikeButIds, Agreement, WfMap, AreCopies, IsComposite, SharedTags;
    if m[x] == x && m[h[x]] == h[x] {
      var ms: seq<IdMap> :| D.StructTrace(g, exact, ms) && |ms| == |g| && ms[|g| - 1] == m;
      LaterInTrace(g, exact, ms, h, x);
    }
  }

  lemma LaterInTrace(g: Graph, exact: bool, ms: seq<IdMap>, h: Hypot, x: Id)
    requires D.StructTrace(g, exact, ms) && (exact || SharedTags(g) == {}) && |ms| == |g| && AreCopies(g, h)
    requires x < |h| && h[x] < |g| && x < h[x] && IsComposite(g[x].info.kind) && |ms[|g| - 1]| == |g|
    ensures !(ms[|g| - 1][x] == x && ms[|g| - 1][h[x]] == h[x])
  {
    hide *;
    CopyKind(g, h, x);
    var y := h[x];
    if ms[|g| - 1][x] == x && ms[|g| - 1][y] == y {
      TraceCanonical(g, exact, ms, |g| - 1, x);
      TraceCanonical(g, exact, ms, |g| - 1, y);
      TraceMapped(g, exact, ms, x, y - 1, x);
      SelfMapped(g, ms[y - 1], x);
      StepGraph(g, exact, ms[y - 1], y, ms[y]);
      CopyDuplicates(g, exact, ms[y - 1], h, x);
      NotCanonical(g, exact, ms[y - 1], y, x);
    }
  }

  lemma SelfMapped(g: Graph, m: IdMap, x: Id)
    requires WfMap(g, m) && x < |g|
    ensures Mapped(x)
  {
  }

  lemma NotCanonical(g: Graph, exact: bool, m: IdMap, i: Id, j: Id)
    requires WfGraph(g) && WfMap(g, m) && i < |g| && 0 < j < |g|
    requires D.NoDuplicates(g, exact, m, i) && D.Duplicates(g, exact, m, i, j)
    ensures m[j] != j
  {
    hide D.Duplicates, WfMap, WfGraph;
    GraphFits(g, m);
  }

  // ---------------------------------------------------------------- the whole run

  lemma ShapeAlike(d: Desc, e: Desc)
    requires WellFormed(d) && WellFormed(e) && Shape(d) == Shape(e) && d.info.kind !in {VOID, VAR, DATASEC}
    ensures AlikeButIds(d, e)
  {
    ShapeAndRefs(d, e);
    var z := Shape(d);
    match d.data
    case Members(ms) =>
      forall k {:trigger ms[k]} | 0 <= k < |ms|
        ensures z.data.members[k] == ms[k].(ty := 0) && z.data.members[k] == e.data.members[k].(ty := 0)
      {
      }
    case Params(ps) =>
      forall k {:trigger ps[k]} | 0 <= k < |ps|
        ensures z.data.params[k] == ps[k].(ty := 0) && z.data.params[k] == e.data.params[k].(ty := 0)
      {
      }
    case _ =>
  }

  /** All structs that are alike but for their type ids are copies of each other. */
  ghost predicate OneFamily(g: Graph, x: Id) {
    forall a: Id, b: Id {:trigger IsCopy(g, a, b)} ::
      x < |g| && a < |g| && b < |g| && a != b && AlikeButIds(g[a], g[x]) && AlikeButIds(g[b], g[x]) ==>
        IsCopy(g, a, b)
  }

  /** Then all of them end up as one. */
  lemma StructsMeet(g: Graph, exact: bool, m0: IdMap, strong: bool, m: IdMap, a: Id, b: Id)
    requires WfGraph(g) && D.StructPass(g, exact, m0) && D.MapKept(m0, m) && MapOk(g, strong, m) && AllMapped(m)
    requires (exact || SharedTags(g) == {}) && (exact ==> strong) && a < |g| && b < |g|
    requires IsComposite(g[a].info.kind) && AlikeButIds(g[b], g[a]) && OneFamily(g, a)
    ensures WfMap(g, m) && Resolve(g, m, a) == Resolve(g, m, b)
  {
    var p, q := Resolve(g, m, a), Resolve(g, m, b);
    RootAlike(g, strong, m, a);
    RootAlike(g, strong, m, b);
    hide WfGraph, WfMap, Resolve, AlikeButIds, MapOk, AllMapped, OneFamily, D.StructPass, D.MapKept, IsCopy;
    AlikeKinds(g[p], g[a]);
    AlikeKinds(g[b], g[a]);
    AlikeTransitive(g[q], g[b], g[a]);
    if p != q {
      PassCanonical(g, exact, m0, m, p);
      PassCanonical(g, exact, m0, m, q) by { AlikeKinds(g[q], g[a]); }
      FamilyCopy(g, a, p, q);
      OneOfTwoCopies(g, exact, m0, p, q);
    }
  }

  lemma AlikeKinds(d: Desc, e: Desc)
    requires AlikeButIds(d, e)
    ensures d.info == e.info
  {
  }

  lemma FamilyCopy(g: Graph, x: Id, a: Id, b: Id)
    requires OneFamily(g, x) && x < |g| && a < |g| && b < |g| && a != b && AlikeButIds(g[a], g[x])
    requires AlikeButIds(g[b], g[x])
    ensures IsCopy(g, a, b)
  {
    hide AlikeButIds, IsCopy;
    assert IsCopy(g, a, b) || !IsCopy(g, a, b);
  }

  lemma RootAlike(g: Graph, strong: bool, m: IdMap, a: Id)
    requires WfGraph(g) && MapOk(g, strong, m) && AllMapped(m) && (strong || SharedTags(g) == {}) && a < |g|
    requires IsComposite(g[a].info.kind)
    ensures var r := Resolve(g, m, a); r < |m| && m[r] == r && AlikeButIds(g[r], g[a])
  {
    PlainShapes(g, strong, m, a);
    var r := Resolve(g, m, a);
    assert WellFormed(g[a]) && WellFormed(g[r]);
    AllMappedResolve(g, m, a);
    hide WfGraph, WfMap, Same, Refs, Resolve, AlikeButIds, WellFormed;
    ShapeAndRefs(g[a], g[r]);
    ShapeAlike(g[r], g[a]);
  }

  /** What is canonical in the end was canonical when the structs were done. */
  lemma PassCanonical(g: Graph, exact: bool, m0: IdMap, m: IdMap, x: Id)
    requires WfGraph(g) && D.StructPass(g, exact, m0) && D.MapKept(m0, m) && x < |m| && m[x] == x && x < |g|
    requires IsComposite(g[x].info.kind)
    ensures |m0| == |g| && m0[x] == x
  {
    hide D.StructTrace, WellFormed, Refs;
    var ms: seq<IdMap> :| D.StructTrace(g, exact, ms) && |ms| == |g| && ms[|g| - 1] == m0;
    TraceMapped(g, exact, ms, |g| - 1, |g| - 1, x);
  }

  /** Originals and copies have the same final ids. */
  ghost predicate ShareIds(g: Graph, h: Hypot, ids: seq<nat>) {
    |h| == |g| == |ids| && forall c {:trigger h[c]} :: 0 <= c < |h| && h[c] < |g| ==> ids[h[c]] == ids[c]
  }

  /** The copied structs are alike to nothing but copies of theirs. */
  ghost predicate OnlyCopies(g: Graph, h: Hypot) {
    forall c: Id {:trigger h[c]} :: c < |h| && c < |g| && h[c] < |g| && g[c].info.kind in {STRUCT, UNION} ==>
      OneFamily(g, c)
  }

  /** The references of two types are final ids in common. */
  ghost predicate RefsMeet(d: Desc, e: Desc, ids: seq<nat>) {
    && |Refs(d)| == |Refs(e)|
    && forall k {:trigger Refs(d)[k]} {:trigger Refs(e)[k]} :: 0 <= k < |Refs(d)| ==>
         Refs(d)[k] < |ids| && Refs(e)[k] < |ids| && ids[Refs(d)[k]] == ids[Refs(e)[k]]
  }

  /** What two types with such references become is the same. */
  lemma SameImages(d: Desc, d': Desc, e: Desc, e': Desc, ids: seq<nat>)
    requires WellFormed(d) && AlikeButIds(d', d) && IsRefKind(d.info.kind)
    requires FieldsFollow(d, e, ids) && FieldsFollow(d', e', ids) && RefsMeet(d, d', ids)
    ensures e == e'
  {
    if d.data.Params? {
      SamePrototypes(d, d', e, e', ids);
    } else if d.data.ArrayData? {
      assert Refs(d)[0] == d.data.index && Refs(d)[1] == d.data.elem;
      assert Refs(d')[0] == d'.data.index && Refs(d')[1] == d'.data.elem;
    } else {
      assert Refs(d)[0] == d.word && Refs(d')[0] == d'.word;
    }
  }

  lemma SamePrototypes(d: Desc, d': Desc, e: Desc, e': Desc, ids: seq<nat>)
    requires AlikeButIds(d', d) && d.info.kind == FUNC_PROTO && d.data.Params?
    requires FieldsFollow(d, e, ids) && FieldsFollow(d', e', ids) && RefsMeet(d, d', ids)
    ensures e == e'
  {
    var ps, qs := d.data.params, d'.data.params;
    assert Refs(d)[0] == d.word && Refs(d')[0] == d'.word;
    forall k {:trigger ps[k]} | 0 <= k < |ps| ensures ids[ps[k].ty] == ids[qs[k].ty] {
      assert Refs(d)[k + 1] == ps[k].ty && Refs(d')[k + 1] == qs[k].ty;
    }
    hide Refs, RefsMeet;
    forall k | 0 <= k < |e.data.params| ensures e.data.params[k] == e'.data.params[k] {
      assert qs[k].name == ps[k].name;
    }
    assert e.data.params == e'.data.params;
  }

  /** The outcome of a run: its fields, its meaning, and no two identical descriptors. */
  ghost predicate Outcome(g: Graph, ids: seq<nat>, out: Graph, order: seq<Id>) {
    && WfGraph(g) && FieldsKept(g, ids, out) && KeepsMeaning(g, PLAIN, ids, out) && ValuesDistinct(out)
    && Topological(g, order) && AllOrdered(g, order)
  }

  ghost predicate StructsShare(g: Graph, h: Hypot, ids: seq<nat>) {
    forall c: Id {:trigger h[c]} ::
      c < |h| && c < |g| && h[c] < |g| && h[c] < |ids| && c < |ids| && g[c].info.kind in {STRUCT, UNION} ==>
        ids[h[c]] == ids[c]
  }

  /** A type without references has become itself. */
  lemma LeafImage(g: Graph, ids: seq<nat>, out: Graph, c: Id)
    requires KeepsMeaning(g, PLAIN, ids, out) && c < |g| && g[c].info.kind in {INT, ENUM, FWD}
    ensures c < |ids| && ids[c] < |out| && out[ids[c]] == g[c]
  {
    assert WellFormed(g[c]);
    assert Refs(g[c]) == [];
    assert Shape(g[c]) == g[c];
    hide Shape, Refs, WellFormed, TagOf, FwdLike, WfGraph;
    var t := Unfold(g, PLAIN, c, 1);
    assert ids[c] < |out| && Unfold(out, Renamed(PLAIN, ids), ids[c], 1) == t;
    assert Shape(out[ids[c]]) == g[c];
    ShapeAndRefs(g[c], out[ids[c]]) by { assert Shape(g[c]) == g[c]; }
  }

  lemma LeafShares(g: Graph, h: Hypot, ids: seq<nat>, out: Graph, order: seq<Id>, c: Id)
    requires Outcome(g, ids, out, order) && AreCopies(g, h) && c < |h| && h[c] < |g| && c < |g|
    requires g[c].info.kind in {INT, ENUM, FWD}
    ensures |ids| == |g| && ids[h[c]] == ids[c]
  {
    CopyKind(g, h, c);
    hide WfGraph, AreCopies, FieldsKept, KeepsMeaning, Topological, AllOrdered, ValuesDistinct;
    LeafImage(g, ids, out, c);
    LeafImage(g, ids, out, h[c]) by { AlikeKinds(g[h[c]], g[c]); }
    AlikeLeaves(g, h[c], c);
    OneImage(g, ids, out, order, h[c], c);
  }

  lemma AlikeLeaves(g: Graph, a: Id, b: Id)
    requires WfGraph(g) && a < |g| && b < |g| && AlikeButIds(g[a], g[b]) && g[b].info.kind in {INT, ENUM, FWD}
    ensures g[a] == g[b]
  {
    assert WellFormed(g[a]) && WellFormed(g[b]);
  }

  /** Identical descriptors of the output are one. */
  lemma OneImage(g: Graph, ids: seq<nat>, out: Graph, order: seq<Id>, a: Id, b: Id)
    requires Outcome(g, ids, out, order) && a < |g| == |ids| && b < |g| && ids[a] < |out| && ids[b] < |out|
    requires out[ids[a]] == out[ids[b]] && out[ids[a]].info.kind !in {STRUCT, UNION, VAR, DATASEC, VOID}
    ensures ids[a] == ids[b]
  {
    hide FieldsKept, Topological, AllOrdered, Refs, WellFormed;
    assert WfGraph(out);
    assert out[0] == VOID_DESC;
  }

  lemma {:induction false} RefShares(g: Graph, h: Hypot, ids: seq<nat>, out: Graph, order: seq<Id>, q: nat)
    requires Outcome(g, ids, out, order) && AreCopies(g, h) && StructsShare(g, h, ids)
    requires q < |order| && order[q] < |g| && order[q] < |h| && h[order[q]] < |g|
    requires IsRefKind(g[order[q]].info.kind)
    ensures |ids| == |g| && ids[h[order[q]]] == ids[order[q]]
    decreases q
  {
    var c := order[q];
    CopyKind(g, h, c);
    CopyRefs(g, h, c);
    var d, e := g[c], g[h[c]];
    assert WellFormed(d) && |ids| == |g|;
    hide WellFormed, Refs, AreCopies, KeepsMeaning, ValuesDistinct, AllOrdered, AlikeButIds, FieldsFollow, WfGraph,
        FieldsKept;
    forall k {:trigger Refs(d)[k]} {:trigger Refs(e)[k]} | 0 <= k < |Refs(d)|
      ensures Refs(d)[k] < |ids| && Refs(e)[k] < |ids| && ids[Refs(d)[k]] == ids[Refs(e)[k]]
    {
      var r := Refs(d)[k];
      if Refs(e)[k] != r {
        CopyKind(g, h, r);
        assert Edge(g, order[q], r);
        if IsRefKind(g[r].info.kind) {
          var p :| 0 <= p < q && order[..q][p] == r;
          RefShares(g, h, ids, out, order, p);
        } else if g[r].info.kind in {STRUCT, UNION} {
          assert h[r] == Refs(e)[k];
        } else {
          RecordedKind(g, h, r);
          LeafShares(g, h, ids, out, order, r);
        }
      }
    }
    RefImages(g, ids, out, order, c, h[c]);
  }

  /** The kinds that are copied. */
  lemma RecordedKind(g: Graph, h: Hypot, c: Id)
    requires AreCopies(g, h) && c < |h| && c < |g| && h[c] < |g|
    ensures g[c].info.kind !in {VOID, VAR, DATASEC}
  {
    GraphFits(g, Itself(g));
    hide WfMap, ChildrenAgree, Refs, WellFormed;
    assert Agrees(g, true, Itself(g), h, h[c], c);
  }

  /** The references of a copy are copies of the references, or the same. */
  lemma CopyRefs(g: Graph, h: Hypot, c: Id)
    requires AreCopies(g, h) && c < |h| && c < |g| && h[c] < |g|
    ensures |h| == |g| && |Refs(g[h[c]])| == |Refs(g[c])|
    ensures forall k {:trigger Refs(g[c])[k]} {:trigger Refs(g[h[c]])[k]} :: 0 <= k < |Refs(g[c])| ==>
              && Refs(g[c])[k] < |g| && Refs(g[h[c]])[k] < |g|
              && (Refs(g[h[c]])[k] == Refs(g[c])[k] || h[Refs(g[c])[k]] == Refs(g[h[c]])[k])
  {
    CopyKind(g, h, c);
    RecordedKind(g, h, c);
    AgreementExactly(g, true, Itself(g), h);
    ItselfIsMap(g);
    assert EntryOk(g, true, Itself(g), h, c);
    assert WellFormed(g[c]) && WellFormed(g[h[c]]);
    HeadExactly(true, g[h[c]], g[c]);
    hide WfMap, Refs, WellFormed, HeadVerdict, Agreement, Resolve, AlikeButIds, AreCopies, WfGraph, Injective;
    if g[c].info.kind in {INT, ENUM, FWD} {
      NoRefs(g[c]);
      NoRefs(g[h[c]]);
    } else {
      var ds, es := Refs(g[h[c]]), Refs(g[c]);
      forall k {:trigger ds[k]} {:trigger es[k]} | 0 <= k < |es|
        ensures es[k] < |g| && ds[k] < |g| && (ds[k] == es[k] || h[es[k]] == ds[k])
      {
        assert PairOk(g, Itself(g), h, ds[k], es[k]);
        assert Resolve(g, Itself(g), ds[k]) == ds[k] && Resolve(g, Itself(g), es[k]) == es[k];
      }
    }
  }

  lemma RefImages(g: Graph, ids: seq<nat>, out: Graph, order: seq<Id>, a: Id, b: Id)
    requires Outcome(g, ids, out, order) && a < |g| == |ids| && b < |g| && AlikeButIds(g[b], g[a])
    requires IsRefKind(g[a].info.kind) && RefsMeet(g[a], g[b], ids)
    ensures ids[a] == ids[b]
  {
    assert WellFormed(g[a]);
    AlikeKinds(g[b], g[a]);
    hide WellFormed, Refs, KeepsMeaning, ValuesDistinct, AllOrdered, AlikeButIds, Topological, WfGraph, RefsMeet,
        HasImage;
    assert FieldsFollow(g[a], out[ids[a]], ids) && FieldsFollow(g[b], out[ids[b]], ids);
    SameImages(g[a], g[b], out[ids[a]], out[ids[b]], ids);
    hide FieldsKept;
    assert out[ids[a]].info == g[a].info;
    OneImage(g, ids, out, order, a, b);
  }

  /** Copies of any kind share their final ids if the structs among them do. */
  lemma CopiesShare(g: Graph, h: Hypot, ids: seq<nat>, out: Graph, order: seq<Id>)
    requires Outcome(g, ids, out, order) && AreCopies(g, h) && StructsShare(g, h, ids)
    ensures ShareIds(g, h, ids)
  {
    assert |ids| == |g|;
    GraphFits(g, Itself(g));
    assert |h| == |g|;
    hide WellFormed, Refs, AreCopies, Outcome, AlikeButIds, WfGraph, WfMap, Topological;
    forall c {:trigger h[c]} | 0 <= c < |h| && h[c] < |g| ensures ids[h[c]] == ids[c] {
      RecordedKind(g, h, c);
      if IsRefKind(g[c].info.kind) {
        var q := Position(g, ids, out, order, c);
        RefShares(g, h, ids, out, order, q);
      } else if g[c].info.kind !in {STRUCT, UNION} {
        LeafShares(g, h, ids, out, order, c);
      }
    }
  }

  lemma Position(g: Graph, ids: seq<nat>, out: Graph, order: seq<Id>, c: Id) returns (q: nat)
    requires Outcome(g, ids, out, order) && c < |g| && IsRefKind(g[c].info.kind)
    ensures q < |order| && order[q] == c
  {
    hide WellFormed, Refs, WfGraph, Topological, FieldsKept, KeepsMeaning;
    q :| 0 <= q < |order| && order[q] == c;
  }

  /** Copies that are alike to nothing but copies share their final ids, of whatever kinds they
      are, unless forward declarations are to be resolved and there are any of a defined tag. */
  ghost predicate CopiesMeet(g: Graph, exact: bool, ids: seq<nat>)
    requires WfGraph(g)
  {
    exact || SharedTags(g) == {} ==>
      forall h: Hypot {:trigger AreCopies(g, h)} :: AreCopies(g, h) && OnlyCopies(g, h) ==> ShareIds(g, h, ids)
  }

  lemma CopiesMerge(g: Graph, exact: bool, m0: IdMap, strong: bool, g1: Graph, m: IdMap, num: seq<nat>, out: Graph,
      order: seq<Id>, h: Hypot)
    requires WfGraph(g) && D.StructPass(g, exact, m0) && D.MapKept(m0, m) && Deduplicated(g, strong, g1, m, num, out)
    requires WfMap(g, m) && |num| == |m| && Outcome(g, NewIds(g, m, num), out, order)
    requires (exact || SharedTags(g) == {}) && (exact ==> strong) && AreCopies(g, h) && OnlyCopies(g, h)
    ensures ShareIds(g, h, NewIds(g, m, num))
  {
    hide WfGraph, AreCopies, Outcome, Rewritten, Numbering, IsOutput, D.StructPass, D.MapKept, WfMap, MapOk, AllMapped,
        AlikeButIds, Resolve, OneFamily;
    var ids := NewIds(g, m, num);
    forall c: Id | c < |h| && c < |g| && h[c] < |g| && g[c].info.kind in {STRUCT, UNION} ensures ids[h[c]] == ids[c] {
      CopyKind(g, h, c);
      StructsMeet(g, exact, m0, strong, m, c, h[c]);
    }
    CopiesShare(g, h, ids, out, order);
  }

  /** What a run has achieved for copies. */
  lemma CopiesGone(g: Graph, exact: bool, strong: bool, m: IdMap, num: seq<nat>, out: Graph, order: seq<Id>)
    requires exists m0 :: D.StructPass(g, exact, m0) && D.MapKept(m0, m)
    requires exists g1 :: Deduplicated(g, strong, g1, m, num, out)
    requires WfMap(g, m) && |num| == |m| && FieldsKept(g, NewIds(g, m, num), out) && ValuesDistinct(out)
    requires KeepsReadings(g, strong, NewIds(g, m, num), out) && Topological(g, order) && AllOrdered(g, order)
    requires exact ==> strong
    ensures WfGraph(g) && CopiesMeet(g, exact, NewIds(g, m, num))
  {
    var m0 :| D.StructPass(g, exact, m0) && D.MapKept(m0, m);
    var g1 :| Deduplicated(g, strong, g1, m, num, out);
    assert WfGraph(g);
    if exact || SharedTags(g) == {} {
      PlainCoherent(g, strong);
      forall h: Hypot | AreCopies(g, h) && OnlyCopies(g, h) ensures ShareIds(g, h, NewIds(g, m, num)) {
        hide WfGraph, AreCopies, Deduplicated, D.StructPass, D.MapKept, WfMap, OnlyCopies, Coherent, FieldsKept,
            KeepsMeaning, ValuesDistinct, Topological, AllOrdered, ShareIds;
        CopiesMerge(g, exact, m0, strong, g1, m, num, out, order, h);
      }
    }
  }
}
