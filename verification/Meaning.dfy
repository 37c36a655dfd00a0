/** What deduplication promises: the compacted and renumbered graph means the same as the
    input. The facts the last two passes establish are stated on values here. */
module Meaning {
  import opened BtfTypes
  import opened TypeGraph
  import opened CanonMap

  ghost predicate AllMapped(m: IdMap) {
    forall i {:trigger m[i]} :: 0 <= i < |m| ==> Mapped(m[i])
  }

  /** The canonical ids below `n`, void excepted, in ascending order. */
  ghost function Canonicals(m: IdMap, n: nat): (c: seq<Id>)
    requires n <= |m|
  {
    if n <= 1 then []
    else Canonicals(m, n - 1) + if m[n - 1] == n - 1 then [n - 1] else []
  }

  lemma {:induction false} CanonicalsFacts(m: IdMap, n: nat)
    requires n <= |m|
    ensures |Canonicals(m, n)| <= if n == 0 then 0 else n - 1
    ensures forall k {:trigger Canonicals(m, n)[k]} :: 0 <= k < |Canonicals(m, n)| ==>
        0 < Canonicals(m, n)[k] < n && m[Canonicals(m, n)[k]] == Canonicals(m, n)[k]
    ensures forall i :: 0 < i < n && m[i] == i ==> i in Canonicals(m, n)
    ensures forall j, k :: 0 <= j < k < |Canonicals(m, n)| ==> Canonicals(m, n)[j] < Canonicals(m, n)[k]
  {
    if n > 1 {
      CanonicalsFacts(m, n - 1);
    }
  }

  /** The renumbering left in `hypot_map`: void stays 0, the k-th canonical id becomes k + 1,
      and nothing else is numbered. */
  ghost predicate Numbering(m: IdMap, num: seq<nat>, n: nat)
    requires n <= |m|
  {
    && |num| == |m|
    && (|m| > 0 ==> num[0] == 0)
    && (forall k {:trigger Canonicals(m, n)[k]} :: 0 <= k < |Canonicals(m, n)| ==>
        Canonicals(m, n)[k] < |num| && num[Canonicals(m, n)[k]] == k + 1)
    && (forall i {:trigger num[i]} :: 0 < i < |m| && !(i < n && m[i] == i) ==> num[i] == UNPROCESSED)
  }

  lemma NumberStart(m: IdMap, num: seq<nat>)
    requires |num| == |m| > 0 && num[0] == 0 && forall i :: 0 < i < |m| ==> num[i] == UNPROCESSED
    ensures Numbering(m, num, 1)
  {
  }

  lemma NumberNext(m: IdMap, num: seq<nat>, n: nat)
    requires 0 < n < |m| && Numbering(m, num, n)
    ensures m[n] != n ==> Numbering(m, num, n + 1) && Canonicals(m, n + 1) == Canonicals(m, n)
    ensures m[n] == n ==>
        Numbering(m, num[n := |Canonicals(m, n)| + 1], n + 1)
        && Canonicals(m, n + 1) == Canonicals(m, n) + [n]
  {
    CanonicalsFacts(m, n);
    if m[n] == n {
      var c, num' := Canonicals(m, n), num[n := |Canonicals(m, n)| + 1];
      assert Canonicals(m, n + 1) == c + [n];
      forall k {:trigger Canonicals(m, n + 1)[k]} | 0 <= k < |Canonicals(m, n + 1)|
        ensures num'[Canonicals(m, n + 1)[k]] == k + 1
      {
        if k < |c| {
          assert Canonicals(m, n + 1)[k] == c[k];
        }
      }
    }
  }

  /** The final id of an input id. */
  ghost function NewId(g: Graph, m: IdMap, num: seq<nat>, i: Id): nat
    requires WfMap(g, m) && |num| == |m| && i < |g|
  {
    num[Resolve(g, m, i)]
  }

  ghost function NewIds(g: Graph, m: IdMap, num: seq<nat>): (ids: seq<nat>)
    requires WfMap(g, m) && |num| == |m|
  {
    seq(|g|, i requires 0 <= i < |g| => NewId(g, m, num, i))
  }

  /** When everything is mapped, every final id exists: remapping never fails. */
  lemma NewIdExists(g: Graph, m: IdMap, num: seq<nat>, i: Id)
    requires WfMap(g, m) && AllMapped(m) && Numbering(m, num, |m|) && i < |g|
    ensures NewId(g, m, num, i) <= |Canonicals(m, |m|)| < |g|
    ensures var r := Resolve(g, m, i);
            if r == 0 then NewId(g, m, num, i) == 0
                else NewId(g, m, num, i) > 0 && Canonicals(m, |m|)[NewId(g, m, num, i) - 1] == r
  {
    ResolveRoot(g, m, i);
    var r := Resolve(g, m, i);
    CanonicalsFacts(m, |m|);
    if r != 0 {
      assert r in Canonicals(m, |m|);
      var k :| 0 <= k < |Canonicals(m, |m|)| && Canonicals(m, |m|)[k] == r;
      assert num[Canonicals(m, |m|)[k]] == k + 1;
    }
  }

  /** The references of a descriptor, renumbered. */
  ghost function NewRefs(g: Graph, m: IdMap, num: seq<nat>, rs: seq<Id>): (qs: seq<nat>)
    requires WfMap(g, m) && |num| == |m|
    requires forall k :: 0 <= k < |rs| ==> rs[k] < |g|
    ensures |qs| == |rs|
  {
    seq(|rs|, k requires 0 <= k < |rs| => NewId(g, m, num, rs[k]))
  }

  ghost predicate RefsInRange(d: Desc, n: nat) {
    forall k {:trigger Refs(d)[k]} :: 0 <= k < |Refs(d)| ==> Refs(d)[k] < n
  }

  /** Every reference of a descriptor has a final id. */
  ghost predicate AllNumbered(g: Graph, m: IdMap, num: seq<nat>, d: Desc)
    requires WfMap(g, m) && |num| == |m| && RefsInRange(d, |g|)
  {
    forall k {:trigger Refs(d)[k]} :: 0 <= k < |Refs(d)| ==> Mapped(NewId(g, m, num, Refs(d)[k]))
  }

  /** A descriptor with every reference renumbered. */
  ghost function Renumber(g: Graph, m: IdMap, num: seq<nat>, d: Desc): Desc
    requires WfMap(g, m) && |num| == |m| && RefsInRange(d, |g|)
  {
    WithRefs(d, NewRefs(g, m, num, Refs(d)))
  }

  lemma RenumberNothing(g: Graph, m: IdMap, num: seq<nat>, d: Desc)
    requires WfMap(g, m) && |num| == |m| && Refs(d) == []
    ensures RefsInRange(d, |g|) && Renumber(g, m, num, d) == d && AllNumbered(g, m, num, d)
  {
    hide Resolve;
    WithOwnRefs(d);
    assert NewRefs(g, m, num, []) == [];
  }

  lemma VoidNumber(g: Graph, m: IdMap, num: seq<nat>)
    requires WfMap(g, m) && |num| == |m| && num[0] == 0
    ensures NewId(g, m, num, 0) == 0
  {
  }

  /** One more reference of `t` takes its value from `qs` instead of `rs`. */
  lemma RewriteNext(t: Desc, rs: seq<Id>, qs: seq<Id>, k: nat)
    requires k < |rs| == |qs| == |Refs(t)|
    ensures var d := WithRefs(t, qs[..k] + rs[k..]);
            |Refs(d)| == |rs| && Refs(d)[k] == rs[k] && SetRef(d, k, qs[k]) == WithRefs(t, qs[..k + 1] + rs[k + 1..])
  {
    hide Refs, WithRefs;
    var mix, mix' := qs[..k] + rs[k..], qs[..k + 1] + rs[k + 1..];
    WithRefsLaws(t, mix, mix');
    assert mix[k := qs[k]] == mix';
  }

  lemma NoRefs(d: Desc)
    requires WellFormed(d) && IsPrimKind(d.info.kind)
    ensures Refs(d) == []
  {
  }

  /** `out` is the row of canonical descriptors of `g1`, with every reference renumbered. */
  ghost predicate IsOutput(g0: Graph, g1: Graph, m: IdMap, num: seq<nat>, out: Graph)
    requires WfMap(g0, m) && |num| == |m| && WfGraph(g1) && |g1| == |g0|
  {
    var c := Canonicals(m, |m|);
    && |out| == |c| + 1 && out[0] == VOID_DESC
    && forall k {:trigger c[k]} :: 0 <= k < |c| ==> c[k] < |g1| && Renumbered(g0, g1, m, num, c[k], out[k + 1])
  }

  ghost predicate Renumbered(g0: Graph, g1: Graph, m: IdMap, num: seq<nat>, i: Id, d: Desc)
    requires WfMap(g0, m) && |num| == |m| && WfGraph(g1) && |g1| == |g0| && i < |g1|
  {
    RefsInRange(g1[i], |g0|) && d == Renumber(g0, m, num, g1[i])
  }

  lemma RenumberedFacts(g0: Graph, g1: Graph, m: IdMap, num: seq<nat>, i: Id, d: Desc)
    requires WfMap(g0, m) && |num| == |m| && WfGraph(g1) && |g1| == |g0| && i < |g1| && Renumbered(g0, g1, m, num, i, d)
    ensures WellFormed(d) && Shape(d) == Shape(g1[i]) && d.info == g1[i].info && d.name == g1[i].name
    ensures Refs(d) == NewRefs(g0, m, num, Refs(g1[i]))
  {
    var rs := NewRefs(g0, m, num, Refs(g1[i]));
    WithRefsLaws(g1[i], rs, rs);
    WithRefsKeepsShape(g1[i], rs);
  }

  /** The state after the reference pass, compaction and remapping. */
  ghost predicate Deduplicated(g0: Graph, exact: bool, g1: Graph, m: IdMap, num: seq<nat>, out: Graph) {
    && WfGraph(g0) && MapOk(g0, exact, m) && Rewritten(g0, exact, g1)
    && AllMapped(m) && Numbering(m, num, |m|) && IsOutput(g0, g1, m, num, out)
  }

  lemma OutputWellFormed(g0: Graph, exact: bool, g1: Graph, m: IdMap, num: seq<nat>, out: Graph)
    requires Deduplicated(g0, exact, g1, m, num, out)
    ensures WfGraph(out)
  {
    hide Resolve, WellFormed, Refs, Same, MapOk, LinkOk, Shape, WithRefs, Renumbered;
    CanonicalsFacts(m, |m|);
    assert WfMap(g0, m) by { MapOkIsWf(g0, exact, m); }
    forall j | 0 < j < |out|
      ensures WellFormed(out[j]) && forall k :: 0 <= k < |Refs(out[j])| ==> Refs(out[j])[k] < |out|
    {
      var i := Canonicals(m, |m|)[j - 1];
      RenumberedFacts(g0, g1, m, num, i, out[j]);
      forall k | 0 <= k < |Refs(out[j])| ensures Refs(out[j])[k] < |out| {
        assert Refs(g1[i])[k] < |g0|;
        NewIdExists(g0, m, num, Refs(g1[i])[k]);
      }
    }
    VoidWellFormed();
  }

  lemma MapOkIsWf(g: Graph, exact: bool, m: IdMap)
    requires WfGraph(g) && MapOk(g, exact, m)
    ensures WfMap(g, m)
  {
  }

  lemma VoidWellFormed()
    ensures WellFormed(VOID_DESC) && Refs(VOID_DESC) == []
  {
  }

  lemma DedupSizes(g0: Graph, exact: bool, g1: Graph, m: IdMap, num: seq<nat>, out: Graph)
    requires Deduplicated(g0, exact, g1, m, num, out)
    ensures WfMap(g0, m) && |num| == |m|
  {
    hide Same, IsOutput, LinkOk;
  }

  /** The final id of a type has the name and the header of what the type resolves to, and the
      tag of the type. */
  lemma TagPreserved(g0: Graph, exact: bool, g1: Graph, m: IdMap, num: seq<nat>, out: Graph, i: Id)
    requires Deduplicated(g0, exact, g1, m, num, out) && i < |g0|
    ensures WfMap(g0, m) && NewId(g0, m, num, i) < |out| && TagOf(out[NewId(g0, m, num, i)]) == TagOf(g0[i])
    ensures out[NewId(g0, m, num, i)].info == g0[Resolve(g0, m, i)].info
  {
    hide Resolve, WellFormed, Refs, LinkOk, Shape, WithRefs, Renumbered, Unfold, Coherent;
    NewIdExists(g0, m, num, i);
    ResolveSame(g0, exact, m, i);
    var r, j := Resolve(g0, m, i), NewId(g0, m, num, i);
    if r != 0 {
      RenumberedFacts(g0, g1, m, num, Canonicals(m, |m|)[j - 1], out[j]);
      ShapeAndRefs(g1[r], g0[r]);
    }
  }

  /** A reading of the input, carried over to the output. */
  ghost function Renamed(r: Reading, ids: seq<nat>): Reading
    requires forall t {:trigger r.defs[t]} :: t in r.defs ==> r.defs[t] < |ids|
  {
    Reading(r.opaques, map t | t in r.defs :: ids[r.defs[t]])
  }

  ghost function NewReading(g: Graph, m: IdMap, num: seq<nat>, r: Reading): Reading
    requires WfMap(g, m) && |num| == |m| && WfReading(g, r)
  {
    Renamed(r, NewIds(g, m, num))
  }

  lemma NewReadingWf(g0: Graph, exact: bool, g1: Graph, m: IdMap, num: seq<nat>, out: Graph, r: Reading)
    requires Deduplicated(g0, exact, g1, m, num, out) && WfReading(g0, r)
    ensures WfMap(g0, m) && WfReading(out, NewReading(g0, m, num, r))
  {
    hide Resolve, WellFormed, Refs, LinkOk, Shape, Rewritten, IsOutput, Same, Numbering, NewId, TagOf;
    DedupSizes(g0, exact, g1, m, num, out);
    var q := NewReading(g0, m, num, r);
    forall t | t in q.defs ensures q.defs[t] < |out| && !FwdLike(out[q.defs[t]]) && TagOf(out[q.defs[t]]) == t {
      TagPreserved(g0, exact, g1, m, num, out, r.defs[t]);
      ResolveRoot(g0, m, r.defs[t]);
    }
  }

  /** Deduplication preserves meaning: every input type and its final id unfold alike to every
      depth, in every reading that is kept. */
  lemma {:induction false} MeaningPreserved(g0: Graph, exact: bool, r: Reading, g1: Graph, m: IdMap, num: seq<nat>,
      out: Graph, i: Id, n: nat)
    requires Deduplicated(g0, exact, g1, m, num, out) && Coherent(g0, exact, r) && i < |g0|
    ensures WfMap(g0, m) && WfGraph(out) && WfReading(out, NewReading(g0, m, num, r)) && NewId(g0, m, num, i) < |out|
    ensures Unfold(out, NewReading(g0, m, num, r), NewId(g0, m, num, i), n) == Unfold(g0, r, i, n)
    decreases n, 2
  {
    OutputWellFormed(g0, exact, g1, m, num, out);
    NewReadingWf(g0, exact, g1, m, num, out, r);
    NewIdExists(g0, m, num, i);
    hide WfGraph, Resolve, Rewritten, IsOutput, Numbering, NewId, NewReading;
    if n > 0 {
      ResolveSame(g0, exact, m, i);
      var root := Resolve(g0, m, i);
      assert Unfold(g0, r, i, n) == Unfold(g0, r, root, n);
      RootPreserved(g0, exact, r, g1, m, num, out, root, n) by { ResolveRootMapped(g0, m, i); }
      RootResolves(g0, m, num, i);
    }
  }

  lemma ResolveRootMapped(g: Graph, m: IdMap, i: Id)
    requires WfMap(g, m) && AllMapped(m) && i < |g|
    ensures m[Resolve(g, m, i)] == Resolve(g, m, i)
  {
    ResolveRoot(g, m, i);
  }

  lemma RootResolves(g0: Graph, m: IdMap, num: seq<nat>, i: Id)
    requires WfMap(g0, m) && |num| == |m| && i < |g0|
    ensures NewId(g0, m, num, Resolve(g0, m, i)) == NewId(g0, m, num, i)
  {
    ResolveRoot(g0, m, i);
  }

  lemma {:induction false} RootPreserved(g0: Graph, exact: bool, r: Reading, g1: Graph, m: IdMap, num: seq<nat>,
      out: Graph, i: Id, n: nat)
    requires Deduplicated(g0, exact, g1, m, num, out) && Coherent(g0, exact, r) && i < |g0| && m[i] == i && n > 0
    ensures WfMap(g0, m) && WfGraph(out) && WfReading(out, NewReading(g0, m, num, r)) && NewId(g0, m, num, i) < |out|
    ensures Unfold(out, NewReading(g0, m, num, r), NewId(g0, m, num, i), n) == Unfold(g0, r, i, n)
    decreases n, if i < |g0| && FwdLike(g0[i]) then 1 else 0
  {
    hide Resolve, WellFormed, Refs, LinkOk, Shape, WithRefs, Renumbered, Unfold, Same, IsOutput, Rewritten, Numbering,
        NewId, TagOf, FwdLike, ReadAs;
    OutputWellFormed(g0, exact, g1, m, num, out);
    NewReadingWf(g0, exact, g1, m, num, out, r);
    NewIdExists(g0, m, num, i);
    DedupSizes(g0, exact, g1, m, num, out);
    ResolveRootItself(g0, m, i);
    TagPreserved(g0, exact, g1, m, num, out, i);
    assert FwdLike(out[NewId(g0, m, num, i)]) == FwdLike(g0[i]) by { FwdByInfo(out[NewId(g0, m, num, i)], g0[i]); }
    var j, q := NewId(g0, m, num, i), NewReading(g0, m, num, r);
    if TagOf(g0[i]) in r.opaques {
      UnfoldOpaque(out, q, j, g0, r, i, n);
    } else if FwdLike(g0[i]) && TagOf(g0[i]) in r.defs {
      DefinitionPreserved(g0, exact, r, g1, m, num, out, i, n);
    } else if i == 0 {
      VoidUnfold(g0, r, out, q, n);
    } else {
      NodePreserved(g0, exact, r, g1, m, num, out, i, n);
    }
  }

  lemma FwdByInfo(d: Desc, e: Desc)
    requires d.info == e.info
    ensures FwdLike(d) == FwdLike(e)
  {
  }

  /** A forward declaration that is read as its definition. */
  lemma {:induction false} DefinitionPreserved(g0: Graph, exact: bool, r: Reading, g1: Graph, m: IdMap, num: seq<nat>,
      out: Graph, i: Id, n: nat)
    requires Deduplicated(g0, exact, g1, m, num, out) && Coherent(g0, exact, r) && i < |g0| && m[i] == i && n > 0
    requires FwdLike(g0[i]) && TagOf(g0[i]) in r.defs
    requires WfMap(g0, m) && WfGraph(out) && WfReading(out, NewReading(g0, m, num, r)) && NewId(g0, m, num, i) < |out|
    requires FwdLike(out[NewId(g0, m, num, i)]) && TagOf(out[NewId(g0, m, num, i)]) == TagOf(g0[i])
    ensures Unfold(out, NewReading(g0, m, num, r), NewId(g0, m, num, i), n) == Unfold(g0, r, i, n)
    decreases n, 1, 0
  {
    hide Resolve, WellFormed, Refs, LinkOk, Shape, Unfold, IsOutput, Rewritten, Numbering, NewId, TagOf, FwdLike;
    DedupSizes(g0, exact, g1, m, num, out);
    var j, q := NewId(g0, m, num, i), NewReading(g0, m, num, r);
    var d := r.defs[TagOf(g0[i])];
    var root := Resolve(g0, m, d);
    ResolveRoot(g0, m, d);
    ResolveSame(g0, exact, m, d);
    UnfoldRead(g0, r, i, n);
    assert Unfold(g0, r, i, n) == Unfold(g0, r, root, n);
    RootPreserved(g0, exact, r, g1, m, num, out, root, n);
    RootResolves(g0, m, num, d);
    UnfoldRead(out, q, j, n);
    assert ReadAs(out, q, j) == NewId(g0, m, num, d);
  }

  /** A descriptor that is read as it stands. */
  lemma {:induction false} NodePreserved(g0: Graph, exact: bool, r: Reading, g1: Graph, m: IdMap, num: seq<nat>,
      out: Graph, i: Id, n: nat)
    requires Deduplicated(g0, exact, g1, m, num, out) && Coherent(g0, exact, r) && 0 < i < |g0| && m[i] == i && n > 0
    requires !(FwdLike(g0[i]) && TagOf(g0[i]) in r.defs)
    requires WfMap(g0, m) && WfGraph(out) && WfReading(out, NewReading(g0, m, num, r)) && NewId(g0, m, num, i) < |out|
    requires FwdLike(out[NewId(g0, m, num, i)]) == FwdLike(g0[i]) && TagOf(out[NewId(g0, m, num, i)]) == TagOf(g0[i])
    ensures Unfold(out, NewReading(g0, m, num, r), NewId(g0, m, num, i), n) == Unfold(g0, r, i, n)
    decreases n, 0, 0
  {
    hide Resolve, WellFormed, Refs, LinkOk, Shape, WithRefs, Renumbered, Unfold, TagOf, FwdLike;
    NewIdExists(g0, m, num, i);
    ResolveRootItself(g0, m, i);
    var j, q := NewId(g0, m, num, i), NewReading(g0, m, num, r);
    RenumberedFacts(g0, g1, m, num, i, out[j]);
    assert Shape(out[j]) == Shape(g0[i]) && |Refs(out[j])| == |Refs(g0[i])|;
    forall k | 0 <= k < |Refs(g0[i])|
      ensures Unfold(out, q, Refs(out[j])[k], n - 1) == Unfold(g0, r, Refs(g0[i])[k], n - 1)
    {
      var x, y := Refs(g1[i])[k], Refs(g0[i])[k];
      assert Same(g0, exact, y, x);
      MeaningPreserved(g0, exact, r, g1, m, num, out, x, n - 1);
      assert Unfold(g0, r, x, n - 1) == Unfold(g0, r, y, n - 1);
    }
    UnfoldStep(out, q, j, g0, r, i, n - 1);
  }

  lemma ResolveRootItself(g0: Graph, m: IdMap, r: Id)
    requires WfMap(g0, m) && r < |g0| && m[r] == r
    ensures Resolve(g0, m, r) == r
  {
  }

  lemma VoidUnfold(g0: Graph, r: Reading, out: Graph, q: Reading, n: nat)
    requires WfGraph(g0) && WfGraph(out) && WfReading(g0, r) && WfReading(out, q) && r.opaques == q.opaques
    ensures Unfold(out, q, 0, n) == Unfold(g0, r, 0, n)
  {
    VoidWellFormed();
    if n > 0 {
      UnfoldStep(out, q, 0, g0, r, 0, n - 1);
    }
  }

  /** Every input type is still there under its final id, as far as its C tag tells. */
  ghost predicate KeepsTags(g0: Graph, ids: seq<nat>, out: Graph) {
    |ids| == |g0| && forall i {:trigger ids[i]} :: 0 <= i < |g0| ==>
        ids[i] < |out| && TagOf(out[ids[i]]) == TagOf(g0[i])
  }

  /** Every input type reads the same under its final id. */
  ghost predicate KeepsMeaning(g0: Graph, r: Reading, ids: seq<nat>, out: Graph) {
    && WfGraph(g0) && WfGraph(out) && WfReading(g0, r) && |ids| == |g0| && WfReading(out, Renamed(r, ids))
    && forall i, n: nat {:trigger Unfold(g0, r, i, n)} :: 0 <= i < |g0| ==>
        ids[i] < |out| && Unfold(out, Renamed(r, ids), ids[i], n) == Unfold(g0, r, i, n)
  }

  /** Every reading in which forward declarations agree with their definitions is kept. */
  ghost predicate KeepsReadings(g0: Graph, exact: bool, ids: seq<nat>, out: Graph) {
    WfGraph(g0) && forall r :: Coherent(g0, exact, r) ==> KeepsMeaning(g0, r, ids, out)
  }

  lemma AllKept(g0: Graph, exact: bool, g1: Graph, m: IdMap, num: seq<nat>, out: Graph)
    requires Deduplicated(g0, exact, g1, m, num, out)
    ensures WfMap(g0, m)
    ensures KeepsTags(g0, NewIds(g0, m, num), out) && KeepsReadings(g0, exact, NewIds(g0, m, num), out)
  {
    assert WfMap(g0, m);
    var ids := NewIds(g0, m, num);
    hide WfMap, Same, Numbering, IsOutput, Rewritten, NewId, WfGraph, TagOf, Coherent, WfReading, KeepsMeaning;
    forall i | 0 <= i < |g0| ensures ids[i] < |out| && TagOf(out[ids[i]]) == TagOf(g0[i]) {
      TagPreserved(g0, exact, g1, m, num, out, i);
    }
    forall r | Coherent(g0, exact, r) ensures KeepsMeaning(g0, r, ids, out) {
      ReadingKept(g0, exact, r, g1, m, num, out);
    }
  }

  lemma ReadingKept(g0: Graph, exact: bool, r: Reading, g1: Graph, m: IdMap, num: seq<nat>, out: Graph)
    requires Deduplicated(g0, exact, g1, m, num, out) && Coherent(g0, exact, r)
    ensures WfMap(g0, m) && KeepsMeaning(g0, r, NewIds(g0, m, num), out)
  {
    assert WfMap(g0, m);
    var ids := NewIds(g0, m, num);
    OutputWellFormed(g0, exact, g1, m, num, out);
    NewReadingWf(g0, exact, g1, m, num, out, r);
    hide WfMap, Same, Numbering, IsOutput, Rewritten, NewId, WfGraph;
    forall i, n: nat {:trigger Unfold(g0, r, i, n)} | 0 <= i < |g0|
      ensures ids[i] < |out| && Unfold(out, Renamed(r, ids), ids[i], n) == Unfold(g0, r, i, n)
    {
      MeaningPreserved(g0, exact, r, g1, m, num, out, i, n);
    }
  }

  /** No forward declaration has become a definition. */
  ghost predicate ForwardsStay(g0: Graph, ids: seq<nat>, out: Graph) {
    |ids| == |g0| && forall i {:trigger ids[i]} :: 0 <= i < |g0| && FwdLike(g0[i]) ==>
        ids[i] < |out| && FwdLike(out[ids[i]])
  }

  lemma StaysIfUnresolved(g0: Graph, exact: bool, g1: Graph, m: IdMap, num: seq<nat>, out: Graph)
    requires Deduplicated(g0, exact, g1, m, num, out)
    ensures WfMap(g0, m) && (ForwardsStay(g0, NewIds(g0, m, num), out) <==> Unresolved(g0, m))
  {
    hide Resolve, LinkOk, Same, Numbering, IsOutput, Rewritten, NewId, WfGraph, Refs, Shape, FwdLike;
    DedupSizes(g0, exact, g1, m, num, out);
    var ids := NewIds(g0, m, num);
    forall i: Id | i < |g0| && FwdLike(g0[i])
      ensures ids[i] < |out| && m[i] < |g0| && (FwdLike(out[ids[i]]) ==> FwdLike(g0[m[i]]))
      ensures Unresolved(g0, m) ==> FwdLike(out[ids[i]])
    {
      TagPreserved(g0, exact, g1, m, num, out, i);
      FwdByInfo(out[ids[i]], g0[Resolve(g0, m, i)]);
      FirstLink(g0, m, i);
      if Unresolved(g0, m) {
        UnresolvedStays(g0, m, i);
      }
    }
  }

  /** A forward declaration that is mapped to a definition resolves to one. */
  lemma FirstLink(g: Graph, m: IdMap, i: Id)
    requires WfMap(g, m) && AllMapped(m) && i < |g| && FwdLike(g[i])
    ensures m[i] < |g| && (!FwdLike(g[m[i]]) ==> !FwdLike(g[Resolve(g, m, i)]))
  {
    assert LinkOk(g, m, i);
    if m[i] != i {
      LevelDrops(g, m, i);
      ResolveRoot(g, m, m[i]);
    }
  }

  /** Read as they stand, types keep their meaning only if no forward declaration was resolved. */
  lemma LostIfResolved(g0: Graph, exact: bool, g1: Graph, m: IdMap, num: seq<nat>, out: Graph)
    requires Deduplicated(g0, exact, g1, m, num, out)
    ensures WfMap(g0, m)
    ensures KeepsMeaning(g0, PLAIN, NewIds(g0, m, num), out) ==> ForwardsStay(g0, NewIds(g0, m, num), out)
  {
    hide Resolve, LinkOk, Same, Numbering, IsOutput, Rewritten, NewId, WfGraph, Refs, Shape;
    DedupSizes(g0, exact, g1, m, num, out);
    var ids := NewIds(g0, m, num);
    if KeepsMeaning(g0, PLAIN, ids, out) {
      forall i | 0 <= i < |g0| && FwdLike(g0[i]) ensures ids[i] < |out| && FwdLike(out[ids[i]]) {
        assert Unfold(g0, PLAIN, i, 1).shape == Unfold(out, Renamed(PLAIN, ids), ids[i], 1).shape;
        ShapeTag(g0[i], out[ids[i]]);
      }
    }
  }
}
