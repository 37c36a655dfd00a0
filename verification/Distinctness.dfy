/** What deduplication is for: among the kinds that are compared as a whole, no two descriptors
    of the output are identical. */
module Distinctness {
  import opened BtfTypes
  import opened TypeGraph
  import opened CanonMap
  import opened DedupTable
  import opened RefPass
  import opened Meaning

  ghost predicate ValuesDistinct(out: Graph) {
    forall a: Id, b: Id {:trigger out[a], out[b]} ::
      0 < a < |out| && 0 < b < |out| && out[a].info.kind !in {STRUCT, UNION, VAR, DATASEC, VOID} && out[a] == out[b] ==>
        a == b
  }

  /** Canonical ids with one final id are one. */
  lemma NewIdInjective(g: Graph, m: IdMap, num: seq<nat>, x: Id, y: Id)
    requires WfMap(g, m) && AllMapped(m) && Numbering(m, num, |m|) && x < |g| && y < |g| && m[x] == x && m[y] == y
    requires NewId(g, m, num, x) == NewId(g, m, num, y)
    ensures x == y
  {
    hide Canonicals;
    NewIdExists(g, m, num, x);
    NewIdExists(g, m, num, y);
  }

  /** With canonical references only, renumbering loses nothing. */
  lemma RefsRestored(g0: Graph, g1: Graph, m: IdMap, num: seq<nat>, i: Id, j: Id, d: Desc)
    requires WfMap(g0, m) && |num| == |m| && AllMapped(m) && Numbering(m, num, |m|) && WfGraph(g1) && |g1| == |g0|
    requires i < |g1| && j < |g1| && Renumbered(g0, g1, m, num, i, d) && Renumbered(g0, g1, m, num, j, d)
    requires SettledRefs(g1[i], m) && SettledRefs(g1[j], m)
    ensures g1[i] == g1[j]
  {
    RenumberedFacts(g0, g1, m, num, i, d);
    RenumberedFacts(g0, g1, m, num, j, d);
    ShapeAndRefs(g1[i], g1[j]);
    hide Refs, Shape, WfMap, AllMapped, Numbering, NewId, WellFormed, Renumbered;
    var p, q := Refs(g1[i]), Refs(g1[j]);
    forall k | 0 <= k < |p| ensures p[k] == q[k] {
      assert NewRefs(g0, m, num, p)[k] == NewRefs(g0, m, num, q)[k];
      NewIdInjective(g0, m, num, p[k], q[k]);
    }
  }

  lemma ValueRefsSettled(g1: Graph, m: IdMap, i: Id)
    requires WfGraph(g1) && i < |g1| && CanonicalRefs(g1, m) && IsValueKind(g1[i].info.kind)
    ensures SettledRefs(g1[i], m)
  {
    if IsPrimKind(g1[i].info.kind) {
      NoRefs(g1[i]);
    }
  }

  /** Canonical types that become identical are one. */
  lemma OneOrigin(g0: Graph, g1: Graph, m: IdMap, num: seq<nat>, i: Id, j: Id, d: Desc)
    requires WfMap(g0, m) && |num| == |m| && AllMapped(m) && Numbering(m, num, |m|) && WfGraph(g1) && |g1| == |g0|
    requires CanonicalDistinct(g1, m) && CanonicalRefs(g1, m) && IsValueKind(d.info.kind)
    requires i < |g1| && j < |g1| && Renumbered(g0, g1, m, num, i, d) && Renumbered(g0, g1, m, num, j, d)
    requires 0 < i && 0 < j && m[i] == i && m[j] == j
    ensures i == j
  {
    RenumberedFacts(g0, g1, m, num, i, d);
    RenumberedFacts(g0, g1, m, num, j, d);
    ValueRefsSettled(g1, m, i);
    ValueRefsSettled(g1, m, j);
    hide Refs, Shape, WfMap, AllMapped, Numbering, WellFormed, Renumbered, SettledRefs, CanonicalRefs;
    RefsRestored(g0, g1, m, num, i, j, d);
  }

  lemma OutputDistinct(g0: Graph, exact: bool, g1: Graph, m: IdMap, num: seq<nat>, out: Graph)
    requires Deduplicated(g0, exact, g1, m, num, out) && |g1| == |m| && CanonicalDistinct(g1, m) && CanonicalRefs(g1, m)
    ensures ValuesDistinct(out)
  {
    hide Refs, Shape, WfMap, AllMapped, Numbering, WellFormed, Renumbered, MapOk, Same, SettledRefs, Canonicals,
        CanonicalRefs, CanonicalDistinct;
    DedupSizes(g0, exact, g1, m, num, out);
    CanonicalsFacts(m, |m|);
    var c := Canonicals(m, |m|);
    forall a: Id, b: Id {:trigger out[a], out[b]}
      | 0 < a < |out| && 0 < b < |out| && IsValueKind(out[a].info.kind) && out[a] == out[b]
      ensures a == b
    {
      var i, j := c[a - 1], c[b - 1];
      OneOrigin(g0, g1, m, num, i, j, out[a]);
    }
  }
}
