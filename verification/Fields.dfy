/** The output of deduplication field by field: which fields hold type ids, and that everything
    else is as it was. Nothing here rests on the lists of references. */
module Fields {
  import opened BtfTypes
  import opened TypeGraph
  import opened CanonMap
  import opened RefPass
  import opened Meaning

  /** The second descriptor is the first one with every type id replaced. */
  predicate FieldsFollow(d: Desc, e: Desc, ids: seq<nat>) {
    && e.name == d.name && e.info == d.info
    && (if d.info.kind in {CONST, VOLATILE, RESTRICT, PTR, TYPEDEF, FUNC, FUNC_PROTO, VAR} then
          d.word < |ids| && e.word == ids[d.word]
        else e.word == d.word)
    && match d.data
       case NoData => e.data == NoData
       case IntData(_) => e.data == d.data
       case VarData(_) => e.data == d.data
       case Enumerators(_) => e.data == d.data
       case ArrayData(elem, index, nelems) =>
         elem < |ids| && index < |ids| && e.data == ArrayData(ids[elem], ids[index], nelems)
       case Members(ms) =>
         && e.data.Members? && |e.data.members| == |ms|
         && forall k {:trigger ms[k]} :: 0 <= k < |ms| ==>
              ms[k].ty < |ids| && e.data.members[k] == Member(ms[k].name, ids[ms[k].ty], ms[k].offset)
       case Params(ps) =>
         && e.data.Params? && |e.data.params| == |ps|
         && forall k {:trigger ps[k]} :: 0 <= k < |ps| ==>
              ps[k].ty < |ids| && e.data.params[k] == Param(ps[k].name, ids[ps[k].ty])
       case SecInfos(ss) =>
         && e.data.SecInfos? && |e.data.secinfos| == |ss|
         && forall k {:trigger ss[k]} :: 0 <= k < |ss| ==>
              ss[k].ty < |ids| && e.data.secinfos[k] == SecInfo(ids[ss[k].ty], ss[k].offset, ss[k].size)
  }

  /** Output type `n` is the image of input type `j`. */
  predicate IsImage(g: Graph, ids: seq<nat>, out: Graph, j: Id, n: nat) {
    j < |g| == |ids| && n < |out| && ids[j] == n && FieldsFollow(g[j], out[n], ids)
  }

  ghost predicate HasImage(g: Graph, ids: seq<nat>, out: Graph, n: nat) {
    exists j: Id :: IsImage(g, ids, out, j, n)
  }

  /** Every output type is the image of an input type; reference types, variables and data
      sections are images of their own. */
  ghost predicate FieldsKept(g: Graph, ids: seq<nat>, out: Graph) {
    && 0 < |g| == |ids| && ids[0] == 0 && (forall i {:trigger ids[i]} :: 0 <= i < |g| ==> ids[i] < |out|)
    && (forall n: nat :: 0 < n < |out| ==> HasImage(g, ids, out, n))
    && forall j {:trigger ids[j]} :: 0 <= j < |g| ==>
         g[j].info.kind in {VOID, INT, ENUM, FWD, STRUCT, UNION} || FieldsFollow(g[j], out[ids[j]], ids)
  }

  /** The references of a descriptor, each replaced by its final id. */
  ghost predicate RefsFollow(d: Desc, e: Desc, ids: seq<nat>) {
    && |Refs(e)| == |Refs(d)|
    && forall k {:trigger Refs(d)[k]} {:trigger Refs(e)[k]} :: 0 <= k < |Refs(d)| ==>
         Refs(d)[k] < |ids| && Refs(e)[k] == ids[Refs(d)[k]]
  }

  lemma DataFollows(d: Data, e: Data, ids: seq<nat>)
    requires WithDataRefs(d, Zeros(|DataRefs(d)|)) == WithDataRefs(e, Zeros(|DataRefs(e)|))
    requires |DataRefs(d)| == |DataRefs(e)|
    requires forall k {:trigger DataRefs(d)[k]} :: 0 <= k < |DataRefs(d)| ==>
        DataRefs(d)[k] < |ids| && DataRefs(e)[k] == ids[DataRefs(d)[k]]
    ensures match d
      case NoData => e == NoData
      case IntData(_) => e == d
      case VarData(_) => e == d
      case Enumerators(_) => e == d
      case ArrayData(elem, index, nelems) =>
        elem < |ids| && index < |ids| && e == ArrayData(ids[elem], ids[index], nelems)
      case Members(ms) =>
        && e.Members? && |e.members| == |ms|
        && forall k {:trigger ms[k]} :: 0 <= k < |ms| ==>
             ms[k].ty < |ids| && e.members[k] == Member(ms[k].name, ids[ms[k].ty], ms[k].offset)
      case Params(ps) =>
        && e.Params? && |e.params| == |ps|
        && forall k {:trigger ps[k]} :: 0 <= k < |ps| ==>
             ps[k].ty < |ids| && e.params[k] == Param(ps[k].name, ids[ps[k].ty])
      case SecInfos(ss) =>
        && e.SecInfos? && |e.secinfos| == |ss|
        && forall k {:trigger ss[k]} :: 0 <= k < |ss| ==>
             ss[k].ty < |ids| && e.secinfos[k] == SecInfo(ids[ss[k].ty], ss[k].offset, ss[k].size)
  {
    var z := WithDataRefs(d, Zeros(|DataRefs(d)|));
    match d
    case ArrayData(elem, index, nelems) =>
      assert DataRefs(d)[0] == index && DataRefs(d)[1] == elem;
    case Members(ms) =>
      forall k {:trigger ms[k]} | 0 <= k < |ms| ensures z.members[k] == ms[k].(ty := 0) && DataRefs(d)[k] == ms[k].ty {
      }
    case Params(ps) =>
      forall k {:trigger ps[k]} | 0 <= k < |ps| ensures z.params[k] == ps[k].(ty := 0) && DataRefs(d)[k] == ps[k].ty {
      }
    case SecInfos(ss) =>
      forall k {:trigger ss[k]} | 0 <= k < |ss| ensures z.secinfos[k] == ss[k].(ty := 0) && DataRefs(d)[k] == ss[k].ty {
      }
    case _ =>
  }

  /** The references are all the fields that hold type ids. */
  lemma RefsAreFields(d: Desc, e: Desc, ids: seq<nat>)
    requires Shape(d) == Shape(e) && RefsFollow(d, e, ids)
    ensures FieldsFollow(d, e, ids)
  {
    ShapeAndRefs(d, e);
    if WordIsRef(d.info.kind) {
      assert Refs(d)[1..] == DataRefs(d.data) && Refs(e)[1..] == DataRefs(e.data);
      assert Refs(d)[0] == d.word && Refs(e)[0] == e.word;
      assert Zeros(|Refs(d)|)[1..] == Zeros(|DataRefs(d.data)|);
      forall k {:trigger DataRefs(d.data)[k]} | 0 <= k < |DataRefs(d.data)|
        ensures DataRefs(d.data)[k] < |ids| && DataRefs(e.data)[k] == ids[DataRefs(d.data)[k]]
      {
        assert Refs(d)[k + 1] == DataRefs(d.data)[k] && Refs(e)[k + 1] == DataRefs(e.data)[k];
      }
    } else {
      assert Refs(d) == DataRefs(d.data) && Refs(e) == DataRefs(e.data);
    }
    DataFollows(d.data, e.data, ids);
  }

  /** The final id of a reference is that of the reference in the input. */
  lemma TracedId(g0: Graph, m: IdMap, num: seq<nat>, a: Id, b: Id)
    requires WfMap(g0, m) && |num| == |m| && a < |g0| && b < |g0| && TracedRef(g0, m, a, b)
    ensures NewId(g0, m, num, b) == NewId(g0, m, num, a)
  {
  }

  /** A type whose representative is identical to it after the reference pass. */
  lemma FieldsAt(g0: Graph, exact: bool, g1: Graph, m: IdMap, num: seq<nat>, out: Graph, fin: seq<Id>, i: Id)
    requires Deduplicated(g0, exact, g1, m, num, out) && History(g0, g1, m, fin) && 0 < i < |g0|
    requires Resolve(g0, m, i) != 0 && Resolve(g0, m, i) < |g1| == |g0| && g1[Resolve(g0, m, i)] == g1[i]
    ensures NewId(g0, m, num, i) < |out|
    ensures FieldsFollow(g0[i], out[NewId(g0, m, num, i)], NewIds(g0, m, num))
  {
    DedupSizes(g0, exact, g1, m, num, out);
    NewIdExists(g0, m, num, i);
    var r, j := Resolve(g0, m, i), NewId(g0, m, num, i);
    hide Resolve, WfMap, Same, Shape, Refs, WellFormed, LinkOk, Numbering, Renumbered, NewId, FieldsFollow, MapOk;
    RenumberedFacts(g0, g1, m, num, r, out[j]);
    assert Shape(g1[i]) == Shape(g0[i]);
    var ids := NewIds(g0, m, num);
    assert |Refs(g1[i])| == |Refs(g0[i])|;
    forall k {:trigger Refs(g0[i])[k]} {:trigger Refs(out[j])[k]} | 0 <= k < |Refs(g0[i])|
      ensures Refs(g0[i])[k] < |ids| && Refs(out[j])[k] == ids[Refs(g0[i])[k]]
    {
      assert Refs(g0[i])[k] < |g0| && Refs(g1[i])[k] < |g1|;
      assert TracedRef(g0, m, Refs(g0[i])[k], Refs(g1[i])[k]);
      TracedId(g0, m, num, Refs(g0[i])[k], Refs(g1[i])[k]);
    }
    RefsAreFields(g0[i], out[j], ids);
  }

  /** Variables and data sections stand for themselves. */
  ghost predicate VariablesStay(g: Graph, m: IdMap) {
    |m| == |g| && forall i {:trigger m[i]} :: 0 <= i < |g| && g[i].info.kind in {VAR, DATASEC} ==> m[i] == i
  }

  /** The output, field by field. */
  lemma OutputFields(g0: Graph, exact: bool, g1: Graph, m: IdMap, num: seq<nat>, out: Graph, fin: seq<Id>)
    requires Deduplicated(g0, exact, g1, m, num, out) && History(g0, g1, m, fin) && AllOrdered(g0, fin)
    requires VariablesStay(g0, m)
    ensures WfMap(g0, m) && |num| == |m| && FieldsKept(g0, NewIds(g0, m, num), out)
  {
    DedupSizes(g0, exact, g1, m, num, out);
    CanonicalsFacts(m, |m|);
    hide WfGraph, Same, Shape, Refs, WellFormed, Numbering, Renumbered, FieldsFollow, MapOk, Deduplicated, History,
        Canonicals, NewId, WfMap, Resolve, HasImage;
    var ids := NewIds(g0, m, num);
    OutputSizes(g0, exact, g1, m, num, out, fin);
    VoidId(g0, exact, g1, m, num, out);
    forall i {:trigger ids[i]} | 0 <= i < |g0| ensures ids[i] < |out| {
      IdInOutput(g0, exact, g1, m, num, out, i);
    }
    forall n: nat | 0 < n < |out| ensures HasImage(g0, ids, out, n) {
      OutputImage(g0, exact, g1, m, num, out, fin, n);
    }
    forall j {:trigger ids[j]} | 0 <= j < |g0|
      ensures g0[j].info.kind in {VOID, INT, ENUM, FWD, STRUCT, UNION} || FieldsFollow(g0[j], out[ids[j]], ids)
    {
      if g0[j].info.kind !in {VOID, INT, ENUM, FWD, STRUCT, UNION} {
        StandsForItself(g0, exact, g1, m, num, out, fin, j);
        FieldsAt(g0, exact, g1, m, num, out, fin, j);
      }
    }
  }

  lemma OutputImage(g0: Graph, exact: bool, g1: Graph, m: IdMap, num: seq<nat>, out: Graph, fin: seq<Id>, n: nat)
    requires Deduplicated(g0, exact, g1, m, num, out) && History(g0, g1, m, fin) && 0 < n < |out|
    ensures WfMap(g0, m) && |num| == |m| && HasImage(g0, NewIds(g0, m, num), out, n)
  {
    DedupSizes(g0, exact, g1, m, num, out);
    CanonicalsFacts(m, |m|);
    hide WfGraph, Same, Shape, Refs, WellFormed, Numbering, Renumbered, FieldsFollow, MapOk, Deduplicated, History,
        Canonicals, NewId, WfMap, Resolve;
    OutputSizes(g0, exact, g1, m, num, out, fin);
    var j := Canonicals(m, |m|)[n - 1];
    RootId(g0, exact, g1, m, num, out, j, n);
    FieldsAt(g0, exact, g1, m, num, out, fin, j);
    assert IsImage(g0, NewIds(g0, m, num), out, j, n);
  }

  lemma VoidId(g0: Graph, exact: bool, g1: Graph, m: IdMap, num: seq<nat>, out: Graph)
    requires Deduplicated(g0, exact, g1, m, num, out)
    ensures |g0| > 0 && WfMap(g0, m) && |num| == |m| && NewId(g0, m, num, 0) == 0
  {
    DedupSizes(g0, exact, g1, m, num, out);
    hide Same, Shape, Refs, WellFormed, Renumbered, Canonicals, IsOutput, Rewritten, Resolve, LinkOk;
    VoidNumber(g0, m, num);
  }

  lemma OutputSizes(g0: Graph, exact: bool, g1: Graph, m: IdMap, num: seq<nat>, out: Graph, fin: seq<Id>)
    requires Deduplicated(g0, exact, g1, m, num, out) && History(g0, g1, m, fin)
    ensures |out| == |Canonicals(m, |m|)| + 1 && |g1| == |g0| == |m|
  {
    hide Same, Shape, Refs, WellFormed, Renumbered, Canonicals;
  }

  lemma IdInOutput(g0: Graph, exact: bool, g1: Graph, m: IdMap, num: seq<nat>, out: Graph, i: Id)
    requires Deduplicated(g0, exact, g1, m, num, out) && i < |g0|
    ensures WfMap(g0, m) && |num| == |m| && NewId(g0, m, num, i) < |out|
  {
    DedupSizes(g0, exact, g1, m, num, out);
    NewIdExists(g0, m, num, i);
    hide Same, Shape, Refs, WellFormed, Renumbered, Canonicals, Resolve;
  }

  /** A canonical id has its own number. */
  lemma RootId(g0: Graph, exact: bool, g1: Graph, m: IdMap, num: seq<nat>, out: Graph, i: Id, n: nat)
    requires Deduplicated(g0, exact, g1, m, num, out)
    requires 0 < n <= |Canonicals(m, |m|)| && Canonicals(m, |m|)[n - 1] == i && 0 < i < |m| && m[i] == i
    ensures WfMap(g0, m) && |num| == |m| && i < |g0| && Resolve(g0, m, i) == i && NewId(g0, m, num, i) == n
  {
    DedupSizes(g0, exact, g1, m, num, out);
    hide Same, Shape, Refs, WellFormed, Renumbered, Canonicals, IsOutput, Rewritten, MapOk;
  }

  /** Reference types have an identical representative, and variables are their own. */
  lemma StandsForItself(g0: Graph, exact: bool, g1: Graph, m: IdMap, num: seq<nat>, out: Graph, fin: seq<Id>, j: Id)
    requires Deduplicated(g0, exact, g1, m, num, out) && History(g0, g1, m, fin) && AllOrdered(g0, fin)
    requires VariablesStay(g0, m) && j < |g0| && g0[j].info.kind !in {VOID, INT, ENUM, FWD, STRUCT, UNION}
    ensures WfMap(g0, m) && 0 < j && Resolve(g0, m, j) != 0 && Resolve(g0, m, j) < |g1| == |g0|
    ensures g1[Resolve(g0, m, j)] == g1[j]
  {
    DedupSizes(g0, exact, g1, m, num, out);
    VoidFirst(g0);
    ResolveRoot(g0, m, j);
    ResolveTag(g0, exact, m, j);
    hide Same, Shape, Refs, WellFormed, IsOutput, Rewritten, Traced, Numbering, WfMap;
    assert |g1| == |g0| by { OutputSizes(g0, exact, g1, m, num, out, fin); }
    assert Mapped(m[j]) && !FwdLike(g0[j]);
    if g0[j].info.kind in {VAR, DATASEC} {
      assert m[j] == j;
    } else {
      assert j in fin;
      var k :| 0 <= k < |fin| && fin[k] == j;
      assert g1[m[fin[k]]] == g1[fin[k]];
    }
  }

  lemma VoidFirst(g: Graph)
    requires WfGraph(g)
    ensures g[0].info.kind == VOID
  {
  }

  lemma ResolveTag(g0: Graph, exact: bool, m: IdMap, j: Id)
    requires WfGraph(g0) && MapOk(g0, exact, m) && j < |g0| && g0[j].info.kind !in {VOID, FWD}
    ensures Resolve(g0, m, j) != 0
  {
    VoidFirst(g0);
    ResolveSame(g0, exact, m, j);
    hide Resolve, WfMap, Coherent, Equiv, WfGraph;
    assert TagOf(g0[j]) == TagOf(g0[Resolve(g0, m, j)]);
  }
}
