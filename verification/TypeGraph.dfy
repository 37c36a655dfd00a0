/** The type graph: descriptors that refer to each other by id, possibly in cycles.

    What a type means is its unfolding to every finite depth. Two ids are equivalent when
    no depth tells them apart. */
module TypeGraph {
  import opened BtfTypes

  type Graph = seq<Desc>

  /** Entry 0 is void; ids are at most `nr_types`; every referenced id is in range. */
  ghost predicate WfGraph(g: Graph) {
    && 0 < |g| <= MAX_NR_TYPES + 1
    && g[0] == VOID_DESC
    && (forall i {:trigger g[i]} :: 0 <= i < |g| ==> WellFormed(g[i]))
    && forall i, k {:trigger Refs(g[i])[k]} :: 0 <= i < |g| && 0 <= k < |Refs(g[i])| ==> Refs(g[i])[k] < |g|
  }

  // ---------------------------------------------------------------- C tags

  datatype Tag = Tag(name: nat, kind: Kind)

  /** A forward declaration has the tag of the struct or union it announces. */
  function TagOf(d: Desc): Tag {
    Tag(d.name, if d.info.kind == FWD then FwdKind(d) else d.info.kind)
  }

  // ---------------------------------------------------------------- unfoldings

  /** A way of reading a graph. Types of an opaque tag are read as no more than that tag. A
      forward declaration, or forward enum, of a defined tag is read as its definition. */
  datatype Reading = Reading(opaques: set<Tag>, defs: map<Tag, Id>)

  /** Everything is read as it stands. */
  const PLAIN: Reading := Reading({}, map[])

  ghost predicate WfReading(g: Graph, r: Reading) {
    forall t {:trigger r.defs[t]} :: t in r.defs ==>
        r.defs[t] < |g| && !FwdLike(g[r.defs[t]]) && TagOf(g[r.defs[t]]) == t
  }

  /** What a type is read as. */
  ghost function ReadAs(g: Graph, r: Reading, i: Id): (j: Id)
    requires WfReading(g, r) && i < |g|
    ensures j < |g| && TagOf(g[j]) == TagOf(g[i])
    ensures !FwdLike(g[i]) ==> j == i
  {
    if FwdLike(g[i]) && TagOf(g[i]) in r.defs then r.defs[TagOf(g[i])] else i
  }

  datatype Tree = Cut | Opaque(tag: Tag) | Node(shape: Desc, kids: seq<Tree>)

  /** The unfolding of a type to depth `n`: kinds, names, sizes, members, values, children. */
  ghost function Unfold(g: Graph, r: Reading, i: Id, n: nat): Tree
    requires WfGraph(g) && WfReading(g, r) && i < |g|
    decreases n
  {
    if n == 0 then Cut
    else if TagOf(g[i]) in r.opaques then Opaque(TagOf(g[i]))
    else
      var j := ReadAs(g, r, i);
      Node(Shape(g[j]), seq(|Refs(g[j])|, k requires 0 <= k < |Refs(g[j])| => Unfold(g, r, Refs(g[j])[k], n - 1)))
  }

  ghost predicate Equiv(g: Graph, r: Reading, a: Id, b: Id)
    requires WfGraph(g) && WfReading(g, r) && a < |g| && b < |g|
  {
    forall n: nat :: Unfold(g, r, a, n) == Unfold(g, r, b, n)
  }

  lemma ShapeTag(d: Desc, e: Desc)
    requires Shape(d) == Shape(e)
    ensures TagOf(d) == TagOf(e) && FwdLike(d) == FwdLike(e)
  {
    ShapeAndRefs(d, e);
  }

  /** Two descriptors of possibly different graphs that unfold alike one level down unfold alike. */
  lemma UnfoldStep(g: Graph, r: Reading, a: Id, h: Graph, q: Reading, b: Id, n: nat)
    requires WfGraph(g) && WfGraph(h) && WfReading(g, r) && WfReading(h, q) && a < |g| && b < |h|
    requires r.opaques == q.opaques && ReadAs(g, r, a) == a && ReadAs(h, q, b) == b
    requires Shape(g[a]) == Shape(h[b]) && |Refs(g[a])| == |Refs(h[b])|
    requires forall k :: 0 <= k < |Refs(g[a])| ==> Unfold(g, r, Refs(g[a])[k], n) == Unfold(h, q, Refs(h[b])[k], n)
    ensures Unfold(g, r, a, n + 1) == Unfold(h, q, b, n + 1)
  {
    ShapeTag(g[a], h[b]);
    hide Shape, Refs, TagOf, ReadAs;
    if TagOf(g[a]) !in r.opaques {
      assert Unfold(g, r, a, n + 1).kids == Unfold(h, q, b, n + 1).kids;
    }
  }

  /** A type unfolds like what it is read as. */
  lemma UnfoldRead(g: Graph, r: Reading, i: Id, n: nat)
    requires WfGraph(g) && WfReading(g, r) && i < |g|
    ensures Unfold(g, r, ReadAs(g, r, i), n) == Unfold(g, r, i, n)
    ensures ReadAs(g, r, ReadAs(g, r, i)) == ReadAs(g, r, i)
  {
    hide Shape, Refs, TagOf;
  }

  /** Types of one opaque tag unfold alike. */
  lemma UnfoldOpaque(g: Graph, r: Reading, a: Id, h: Graph, q: Reading, b: Id, n: nat)
    requires WfGraph(g) && WfGraph(h) && WfReading(g, r) && WfReading(h, q) && a < |g| && b < |h|
    requires r.opaques == q.opaques && TagOf(g[a]) == TagOf(h[b]) && TagOf(g[a]) in r.opaques
    ensures Unfold(g, r, a, n) == Unfold(h, q, b, n)
  {
  }

  lemma EquivFromParts(g: Graph, r: Reading, a: Id, b: Id)
    requires WfGraph(g) && WfReading(g, r) && a < |g| && b < |g|
    requires Shape(g[a]) == Shape(g[b]) && |Refs(g[a])| == |Refs(g[b])|
    requires forall k :: 0 <= k < |Refs(g[a])| ==> Equiv(g, r, Refs(g[a])[k], Refs(g[b])[k])
    ensures Equiv(g, r, a, b)
  {
    ShapeTag(g[a], g[b]);
    hide Shape, Refs, TagOf;
    forall n: nat ensures Unfold(g, r, a, n) == Unfold(g, r, b, n) {
      if n > 0 {
        if ReadAs(g, r, a) == a {
          UnfoldStep(g, r, a, g, r, b, n - 1);
        } else {
          UnfoldRead(g, r, a, n);
          UnfoldRead(g, r, b, n);
        }
      }
    }
  }

  // ---------------------------------------------------------------- sameness

  /** A reading that the deduplication keeps. Without forward resolution every one is. With it, a
      forward declaration must read like each definition of its tag. */
  ghost predicate Coherent(g: Graph, exact: bool, r: Reading)
    requires WfGraph(g)
  {
    WfReading(g, r) && (exact || forall i: Id, j: Id :: Announces(g, i, j) ==> Equiv(g, r, i, j))
  }

  /** A forward declaration, or forward enum, and a definition of its tag. */
  ghost predicate Announces(g: Graph, i: Id, j: Id) {
    i < |g| && j < |g| && FwdLike(g[i]) && !FwdLike(g[j]) && TagOf(g[i]) == TagOf(g[j])
  }

  /** The tags that are both announced and defined. */
  ghost function SharedTags(g: Graph): set<Tag> {
    set i: Id, j: Id | i < |g| && j < |g| && Announces(g, i, j) :: TagOf(g[i])
  }

  /** With these tags opaque the outlines of all types are kept, whatever is resolved. */
  lemma OutlineCoherent(g: Graph, exact: bool)
    requires WfGraph(g)
    ensures Coherent(g, exact, Reading(SharedTags(g), map[]))
  {
    hide TagOf, FwdLike;
    var r := Reading(SharedTags(g), map[]);
    forall i: Id, j: Id | Announces(g, i, j) ensures Equiv(g, r, i, j) {
      assert TagOf(g[i]) in SharedTags(g);
      forall n: nat ensures Unfold(g, r, i, n) == Unfold(g, r, j, n) {
        UnfoldOpaque(g, r, i, g, r, j, n);
      }
    }
  }

  /** Nothing is lost if no forward declaration shares its tag with a definition. */
  lemma PlainCoherent(g: Graph, exact: bool)
    requires WfGraph(g) && (exact || SharedTags(g) == {})
    ensures Coherent(g, exact, PLAIN)
  {
    OutlineCoherent(g, exact);
  }

  /** Every announced tag has a definition to read, and all its definitions mean the same. */
  ghost predicate OneMeaning(g: Graph, r: Reading)
    requires WfGraph(g)
  {
    && WfReading(g, r) && SharedTags(g) <= r.defs.Keys
    && forall j: Id {:trigger g[j]} :: j < |g| && !FwdLike(g[j]) && TagOf(g[j]) in r.defs ==>
        Equiv(g, r, j, r.defs[TagOf(g[j])])
  }

  /** Then reading forward declarations as their definitions is kept. */
  lemma DefinitionsCoherent(g: Graph, exact: bool, r: Reading)
    requires WfGraph(g) && OneMeaning(g, r)
    ensures Coherent(g, exact, r)
  {
    hide TagOf, FwdLike, Unfold;
    forall i: Id, j: Id | Announces(g, i, j) ensures Equiv(g, r, i, j) {
      assert TagOf(g[i]) in SharedTags(g);
      assert ReadAs(g, r, i) == r.defs[TagOf(g[i])];
      forall n: nat ensures Unfold(g, r, i, n) == Unfold(g, r, j, n) {
        UnfoldRead(g, r, i, n);
        assert Unfold(g, r, j, n) == Unfold(g, r, r.defs[TagOf(g[j])], n);
      }
    }
  }

  /** What one canonical id may stand for: types with the same tag that unfold alike in every
      reading that is kept. */
  ghost predicate Same(g: Graph, exact: bool, a: Id, b: Id)
    requires WfGraph(g) && a < |g| && b < |g|
  {
    TagOf(g[a]) == TagOf(g[b]) && forall r :: Coherent(g, exact, r) ==> Equiv(g, r, a, b)
  }

  lemma SameTransitive(g: Graph, exact: bool, a: Id, b: Id, c: Id)
    requires WfGraph(g) && a < |g| && b < |g| && c < |g|
    requires Same(g, exact, a, b) && Same(g, exact, b, c)
    ensures Same(g, exact, a, c) && Same(g, exact, c, a)
  {
    hide TagOf, Unfold;
    forall r | Coherent(g, exact, r) ensures Equiv(g, r, a, c) && Equiv(g, r, c, a) {
      forall n: nat ensures Unfold(g, r, a, n) == Unfold(g, r, c, n) {
        assert Unfold(g, r, a, n) == Unfold(g, r, b, n);
        assert Unfold(g, r, b, n) == Unfold(g, r, c, n);
      }
    }
  }

  /** Equal descriptors mean the same. */
  lemma EqualDescsSame(g: Graph, exact: bool, a: Id, b: Id)
    requires WfGraph(g) && a < |g| && b < |g| && g[a] == g[b]
    ensures Same(g, exact, a, b)
  {
    hide Shape, Refs, Unfold, TagOf, Announces;
    forall r | Coherent(g, exact, r) ensures Equiv(g, r, a, b) {
      EquivFromParts(g, r, a, b);
    }
  }

  /** A descriptor after the first one that claims to be void. */
  ghost predicate HasVoid(g: Graph) {
    exists i :: 0 < i < |g| && g[i].info.kind == VOID
  }

  predicate IsVariable(k: Kind) { k == VAR || k == DATASEC }

  /** Only data sections refer to variables. */
  ghost predicate ProperRefs(g: Graph) {
    forall i, k {:trigger Refs(g[i])[k]} ::
        0 <= i < |g| && g[i].info.kind != DATASEC && 0 <= k < |Refs(g[i])| && Refs(g[i])[k] < |g| ==>
      !IsVariable(g[Refs(g[i])[k]].info.kind)
  }

  /** A graph in which references were replaced by references to the same types. */
  ghost predicate Rewritten(g0: Graph, exact: bool, g: Graph)
    requires WfGraph(g0)
  {
    && WfGraph(g) && |g| == |g0|
    && (forall i :: 0 <= i < |g| ==> Shape(g[i]) == Shape(g0[i]) && |Refs(g[i])| == |Refs(g0[i])|)
    && forall i, k {:trigger Refs(g[i])[k]} {:trigger Refs(g0[i])[k]} :: 0 <= i < |g| && 0 <= k < |Refs(g[i])| ==>
        Same(g0, exact, Refs(g0[i])[k], Refs(g[i])[k])
  }

  lemma RewrittenRefl(g: Graph, exact: bool)
    requires WfGraph(g)
    ensures Rewritten(g, exact, g)
  {
  }

  lemma SetRefFacts(d: Desc, k: nat, r: Id)
    requires WellFormed(d) && k < |Refs(d)|
    ensures WellFormed(SetRef(d, k, r)) && Shape(SetRef(d, k, r)) == Shape(d)
    ensures Refs(SetRef(d, k, r)) == Refs(d)[k := r] && SetRef(d, k, r).info == d.info
  {
    var rs := Refs(d)[k := r];
    WithRefsLaws(d, rs, rs);
    WithRefsKeepsShape(d, rs);
  }

  /** One in-place write of a reference. */
  lemma RewriteStep(g0: Graph, exact: bool, g: Graph, i: Id, k: nat, r: Id)
    requires WfGraph(g0) && Rewritten(g0, exact, g)
    requires 0 < i < |g| && k < |Refs(g[i])| && r < |g| && Same(g0, exact, Refs(g[i])[k], r)
    ensures Rewritten(g0, exact, g[i := SetRef(g[i], k, r)])
    ensures Refs(SetRef(g[i], k, r)) == Refs(g[i])[k := r]
  {
    SetRefFacts(g[i], k, r);
    hide Refs, Shape, WithRefs, WellFormed, Same, SetRef;
    SameTransitive(g0, exact, Refs(g0[i])[k], Refs(g[i])[k], r);
    RefsReplaced(g0, exact, g, i, SetRef(g[i], k, r));
  }

  lemma RefsReplaced(g0: Graph, exact: bool, g: Graph, i: Id, d: Desc)
    requires WfGraph(g0) && Rewritten(g0, exact, g) && 0 < i < |g|
    requires WellFormed(d) && Shape(d) == Shape(g[i]) && |Refs(d)| == |Refs(g[i])|
    requires forall l :: 0 <= l < |Refs(d)| ==> Refs(d)[l] < |g| && Same(g0, exact, Refs(g0[i])[l], Refs(d)[l])
    ensures Rewritten(g0, exact, g[i := d])
  {
    hide Refs, Shape, WellFormed, Same;
    var h := g[i := d];
    forall j, l {:trigger Refs(h[j])[l]} | 0 <= j < |h| && 0 <= l < |Refs(h[j])|
      ensures Refs(h[j])[l] < |h| && Same(g0, exact, Refs(g0[j])[l], Refs(h[j])[l])
    {
      if j != i {
        assert h[j] == g[j];
        assert Refs(g[j])[l] < |g|;
      }
    }
  }

  /** Descriptors that became equal were the same type all along. */
  lemma RewrittenEqual(g0: Graph, exact: bool, g: Graph, a: Id, b: Id)
    requires WfGraph(g0) && Rewritten(g0, exact, g) && a < |g| && b < |g| && g[a] == g[b]
    ensures Same(g0, exact, a, b)
  {
    ShapeAndRefs(g[a], g0[a]);
    ShapeAndRefs(g[b], g0[b]);
    ShapeTag(g0[a], g0[b]);
    hide Refs, Shape, Coherent, Same, TagOf;
    forall k | 0 <= k < |Refs(g0[a])| ensures Same(g0, exact, Refs(g0[a])[k], Refs(g0[b])[k]) {
      var x, y, z := Refs(g0[a])[k], Refs(g[a])[k], Refs(g0[b])[k];
      assert Same(g0, exact, x, y) && Same(g0, exact, z, y);
      SameTransitive(g0, exact, z, y, y) by { EqualDescsSame(g0, exact, y, y); }
      SameTransitive(g0, exact, x, y, z);
    }
    SameFromParts(g0, exact, a, b);
  }

  lemma SameFromParts(g: Graph, exact: bool, a: Id, b: Id)
    requires WfGraph(g) && a < |g| && b < |g|
    requires Shape(g[a]) == Shape(g[b]) && |Refs(g[a])| == |Refs(g[b])|
    requires forall k :: 0 <= k < |Refs(g[a])| ==> Same(g, exact, Refs(g[a])[k], Refs(g[b])[k])
    ensures Same(g, exact, a, b)
  {
    ShapeTag(g[a], g[b]);
    hide Shape, Refs, Unfold, TagOf, Announces;
    forall r | Coherent(g, exact, r) ensures Equiv(g, r, a, b) {
      forall k | 0 <= k < |Refs(g[a])| ensures Equiv(g, r, Refs(g[a])[k], Refs(g[b])[k]) {
        assert Same(g, exact, Refs(g[a])[k], Refs(g[b])[k]);
      }
      EquivFromParts(g, r, a, b);
    }
  }
}
