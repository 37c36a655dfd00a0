/** The specification of the reference pass: `btf_dedup_ref_type` walks chains of reference
    types depth first, rewriting references and mapping a type once its children are mapped. */
module RefPass {
  import opened BtfTypes
  import opened TypeGraph
  import opened CanonMap

  /** An edge between reference types, followed by the recursion. */
  ghost predicate Edge(g: Graph, a: Id, b: Id) {
    a < |g| && IsRefKind(g[a].info.kind) && b in Refs(g[a])
  }

  ghost predicate Path(g: Graph, p: seq<Id>) {
    forall k {:trigger p[k]} :: 0 <= k < |p| - 1 ==> Edge(g, p[k], p[k + 1])
  }

  /** A type cycle made of reference kinds only. */
  ghost predicate IsRefCycle(g: Graph, p: seq<Id>) {
    |p| >= 2 && p[0] == p[|p| - 1] && Path(g, p)
  }

  ghost predicate HasRefCycle(g: Graph) {
    exists p :: IsRefCycle(g, p)
  }

  /** Reference types in an order in which everything they refer to comes first. */
  ghost predicate Topological(g: Graph, order: seq<Id>) {
    forall p: nat, r: Id {:trigger Edge(g, order[p], r)} ::
        p < |order| && Edge(g, order[p], r) && r < |g| && IsRefKind(g[r].info.kind) ==> r in order[..p]
  }

  ghost predicate AllOrdered(g: Graph, order: seq<Id>) {
    forall i {:trigger g[i]} :: 0 <= i < |g| && IsRefKind(g[i].info.kind) ==> i in order
  }

  /** A topological order of all reference types rules out a cycle of them. */
  lemma NoCycle(g: Graph, order: seq<Id>)
    requires WfGraph(g) && Topological(g, order) && AllOrdered(g, order)
    ensures !HasRefCycle(g)
  {
    hide Refs, WellFormed, WfGraph;
    forall p | IsRefCycle(g, p) ensures false {
      assert Edge(g, p[0], p[1]);
      var q :| 0 <= q < |order| && order[q] == p[0];
      NotOnCycle(g, order, p, q);
    }
  }

  lemma {:induction false} NotOnCycle(g: Graph, order: seq<Id>, p: seq<Id>, q: nat)
    requires Topological(g, order) && IsRefCycle(g, p)
    requires q < |order| && order[q] == p[0]
    ensures false
    decreases q
  {
    hide Refs, Topological;
    var z := WalkDown(g, order, p, |p| - 1, q);
    NotOnCycle(g, order, p, z);
  }

  /** Each step along a cycle goes strictly back in the order. */
  lemma {:induction false} WalkDown(g: Graph, order: seq<Id>, p: seq<Id>, k: nat, q: nat) returns (z: nat)
    requires Topological(g, order) && IsRefCycle(g, p) && 0 < k < |p| && q < |order| && order[q] == p[0]
    ensures z < q && order[z] == p[k]
    decreases k
  {
    hide Refs;
    var y := q;
    if k > 1 {
      y := WalkDown(g, order, p, k - 1, q);
    }
    assert Edge(g, order[y], p[k]) by {
      assert Edge(g, p[k - 1], p[k]);
    }
    assert p[k] < |g| && IsRefKind(g[p[k]].info.kind) by {
      if k < |p| - 1 {
        assert Edge(g, p[k], p[k + 1]);
      } else {
        assert Edge(g, p[0], p[1]);
      }
    }
    assert p[k] in order[..y];
    z :| 0 <= z < y && order[..y][z] == p[k];
  }

  // ---------------------------------------------------------------- the state of the pass

  /** Between two steps of the recursion: `stack` holds the types in progress, a path of the
      graph; `fin` holds the finished reference types, in the order they were finished. */
  ghost predicate RefState(g0: Graph, exact: bool, g: Graph, m: IdMap, stack: seq<Id>, fin: seq<Id>) {
    && WfGraph(g0) && MapOk(g0, exact, m) && Rewritten(g0, exact, g)
    && Pending(g0, g, m)
    && InProgress(g0, m, stack)
    && Finished(g0, m, fin)
    && AllSettledRefs(g, m, fin)
    && Path(g0, stack) && Topological(g0, fin)
  }

  /** Every reference of a finished type is a canonical id. */
  ghost predicate AllSettledRefs(g: Graph, m: IdMap, fin: seq<Id>) {
    forall k {:trigger fin[k]} :: 0 <= k < |fin| ==> fin[k] < |g| && SettledRefs(g[fin[k]], m)
  }

  ghost predicate SettledRefs(d: Desc, m: IdMap) {
    forall l {:trigger Refs(d)[l]} :: 0 <= l < |Refs(d)| ==> Refs(d)[l] < |m| && m[Refs(d)[l]] == Refs(d)[l]
  }

  /** All references of reference types are canonical ids. */
  ghost predicate CanonicalRefs(g: Graph, m: IdMap) {
    forall i {:trigger g[i]} :: 0 <= i < |g| && IsRefKind(g[i].info.kind) ==> SettledRefs(g[i], m)
  }

  lemma SettledRefsStay(g: Graph, m: IdMap, g': Graph, m': IdMap, fin: seq<Id>)
    requires AllSettledRefs(g, m, fin) && |g'| == |g| && |m'| == |m| <= MAX_NR_TYPES + 1
    requires forall i {:trigger m'[i]} :: 0 <= i < |m| && m[i] == i ==> m'[i] == i
    requires forall k {:trigger fin[k]} :: 0 <= k < |fin| && fin[k] < |g| ==> g'[fin[k]] == g[fin[k]]
    ensures AllSettledRefs(g', m', fin)
  {
    hide Refs;
  }

  /** A reference is still that of the input, or the canonical id that it resolves to. */
  ghost predicate TracedRef(g0: Graph, m: IdMap, a: Id, b: Id)
    requires WfMap(g0, m)
  {
    b == a || (a < |g0| && b < |g0| && m[b] == b && Resolve(g0, m, a) == b)
  }

  ghost predicate Traced(g0: Graph, g: Graph, m: IdMap)
    requires WfMap(g0, m)
  {
    && |g| == |g0|
    && (forall i {:trigger g[i]} :: 0 <= i < |g0| ==> |Refs(g[i])| == |Refs(g0[i])|)
    && forall i, k {:trigger Refs(g[i])[k]} :: 0 <= i < |g0| && 0 <= k < |Refs(g[i])| ==>
         TracedRef(g0, m, Refs(g0[i])[k], Refs(g[i])[k])
  }

  /** A finished type is identical to the one it is mapped to. */
  ghost predicate Twinned(g: Graph, m: IdMap, fin: seq<Id>) {
    forall k {:trigger fin[k]} :: 0 <= k < |fin| ==>
      fin[k] < |g| == |m| && m[fin[k]] < |g| && g[m[fin[k]]] == g[fin[k]]
  }

  /** Where the rewritten types come from. */
  ghost predicate History(g0: Graph, g: Graph, m: IdMap, fin: seq<Id>) {
    WfMap(g0, m) && Traced(g0, g, m) && Twinned(g, m, fin)
  }

  lemma HistoryStarts(g0: Graph, m: IdMap)
    requires WfMap(g0, m)
    ensures History(g0, g0, m, [])
  {
  }

  /** What is mapped for good resolves as before. */
  lemma {:induction false} ResolveKept(g: Graph, m: IdMap, m': IdMap, a: Id)
    requires WfMap(g, m) && WfMap(g, m') && a < |g| && m[Resolve(g, m, a)] == Resolve(g, m, a)
    requires forall x {:trigger m'[x]} :: 0 <= x < |g| && Mapped(m[x]) ==> m'[x] == m[x]
    ensures Resolve(g, m', a) == Resolve(g, m, a)
    decreases Level(g, m, a)
  {
    if Mapped(m[a]) && m[a] != a {
      LevelDrops(g, m, a);
      ResolveKept(g, m, m', m[a]);
      assert m'[a] == m[a];
    } else {
      assert m'[a] == a;
    }
  }

  lemma TracedKept(g0: Graph, g: Graph, m: IdMap, m': IdMap)
    requires WfMap(g0, m) && WfMap(g0, m') && Traced(g0, g, m)
    requires forall x {:trigger m'[x]} :: 0 <= x < |g0| && Mapped(m[x]) ==> m'[x] == m[x]
    ensures Traced(g0, g, m')
  {
    hide Refs, Resolve, WfMap, LinkOk;
    MapSize(g0, m);
    MapSize(g0, m');
    forall i, k {:trigger Refs(g[i])[k]} | 0 <= i < |g0| && 0 <= k < |Refs(g[i])|
      ensures k < |Refs(g0[i])| && TracedRef(g0, m', Refs(g0[i])[k], Refs(g[i])[k])
    {
      assert |Refs(g[i])| == |Refs(g0[i])|;
      var a, b := Refs(g0[i])[k], Refs(g[i])[k];
      assert TracedRef(g0, m, a, b);
      if b != a {
        ResolveKept(g0, m, m', a);
      }
    }
  }

  lemma MapSize(g: Graph, m: IdMap)
    requires WfMap(g, m)
    ensures |m| == |g| <= MAX_NR_TYPES + 1
  {
  }

  lemma HistoryBegins(g0: Graph, g: Graph, m: IdMap, fin: seq<Id>, i: Id)
    requires History(g0, g, m, fin) && Finished(g0, m, fin) && i < |g0| && m[i] == UNPROCESSED
        && WfMap(g0, m[i := IN_PROGRESS])
    ensures History(g0, g, m[i := IN_PROGRESS], fin)
  {
    hide Refs, Resolve, WfMap, Traced, LinkOk;
    MapSize(g0, m);
    var m' := m[i := IN_PROGRESS];
    TracedKept(g0, g, m, m');
    TwinsKept(g, m, m', fin) by { hide Traced; }
  }

  lemma TwinsKept(g: Graph, m: IdMap, m': IdMap, fin: seq<Id>)
    requires Twinned(g, m, fin) && |m'| == |m|
    requires forall k {:trigger fin[k]} :: 0 <= k < |fin| ==> fin[k] < |m| && m'[fin[k]] == m[fin[k]]
    ensures Twinned(g, m', fin)
  {
  }

  lemma HistoryRewritten(g0: Graph, g: Graph, m: IdMap, fin: seq<Id>, i: Id, k: nat, d: Desc, r: Id)
    requires History(g0, g, m, fin) && Finished(g0, m, fin) && i < |g0| == |g| && m[i] == IN_PROGRESS
    requires k < |Refs(g[i])| && Refs(g[i])[k] < |g0| && r == Resolve(g0, m, Refs(g[i])[k]) && m[r] == r
    requires Refs(d) == Refs(g[i])[k := r]
    ensures History(g0, g[i := d], m, fin)
  {
    FinishedTargets(g0, m, fin, i);
    TracedRewritten(g0, g, m, i, k, d, r);
    hide Refs, WfMap, LinkOk, Traced, Resolve;
  }

  lemma TracedRewritten(g0: Graph, g: Graph, m: IdMap, i: Id, k: nat, d: Desc, r: Id)
    requires WfMap(g0, m) && Traced(g0, g, m) && i < |g0| == |g|
    requires k < |Refs(g[i])| && Refs(g[i])[k] < |g0| && r == Resolve(g0, m, Refs(g[i])[k]) && m[r] == r
    requires Refs(d) == Refs(g[i])[k := r]
    ensures Traced(g0, g[i := d], m)
  {
    hide Refs, WfMap, LinkOk, TracedRef, Resolve;
    var g' := g[i := d];
    assert |Refs(g[i])| == |Refs(g0[i])|;
    TracedTwice(g0, m, Refs(g0[i])[k], Refs(g[i])[k], r);
    forall j, l {:trigger Refs(g'[j])[l]} | 0 <= j < |g0| && 0 <= l < |Refs(g'[j])|
      ensures l < |Refs(g0[j])| && TracedRef(g0, m, Refs(g0[j])[l], Refs(g'[j])[l])
    {
      assert |Refs(g[j])| == |Refs(g0[j])|;
      assert TracedRef(g0, m, Refs(g0[j])[l], Refs(g[j])[l]);
    }
  }

  lemma TracedTwice(g0: Graph, m: IdMap, a: Id, b: Id, r: Id)
    requires WfMap(g0, m) && TracedRef(g0, m, a, b) && b < |g0| && r == Resolve(g0, m, b) && m[r] == r
    ensures TracedRef(g0, m, a, r)
  {
  }

  /** No finished type is mapped to one in progress. */
  lemma FinishedTargets(g0: Graph, m: IdMap, fin: seq<Id>, i: Id)
    requires WfMap(g0, m) && Finished(g0, m, fin) && i < |g0| && m[i] == IN_PROGRESS
    ensures forall k {:trigger fin[k]} :: 0 <= k < |fin| ==> fin[k] != i && m[fin[k]] != i
  {
    forall k {:trigger fin[k]} | 0 <= k < |fin| ensures fin[k] != i && m[fin[k]] != i {
      assert LinkOk(g0, m, fin[k]);
    }
  }

  lemma HistoryFinishes(g0: Graph, g: Graph, m: IdMap, fin: seq<Id>, i: Id, j: Id)
    requires History(g0, g, m, fin) && Finished(g0, m, fin) && i < |g0| && m[i] == IN_PROGRESS
    requires j < |g0| && g[j] == g[i] && WfMap(g0, m[i := j])
    ensures History(g0, g, m[i := j], fin + [i])
  {
    hide Refs, Resolve, WfMap, Traced, LinkOk;
    MapSize(g0, m);
    TracedKept(g0, g, m, m[i := j]);
    var m', fin' := m[i := j], fin + [i];
    assert |g| == |g0| by { TracedSize(g0, g, m); }
    forall k {:trigger fin'[k]} | 0 <= k < |fin'|
      ensures fin'[k] < |g| && m'[fin'[k]] < |g| && g[m'[fin'[k]]] == g[fin'[k]]
    {
      if k < |fin| {
        assert fin'[k] == fin[k];
      }
    }
  }

  lemma TracedSize(g0: Graph, g: Graph, m: IdMap)
    requires WfMap(g0, m) && Traced(g0, g, m)
    ensures |g| == |g0|
  {
  }

  /** Only reference types are unmapped, and those not yet reached are untouched. */
  ghost predicate Pending(g0: Graph, g: Graph, m: IdMap) {
    && |g| == |m| == |g0|
    && forall i {:trigger m[i]} :: 0 <= i < |g0| ==>
         (!Mapped(m[i]) ==> IsRefKind(g0[i].info.kind)) && (m[i] == UNPROCESSED ==> g[i] == g0[i])
  }

  ghost predicate InProgress(g0: Graph, m: IdMap, stack: seq<Id>) {
    && |m| == |g0|
    && (forall i {:trigger m[i]} :: 0 <= i < |g0| && m[i] == IN_PROGRESS ==> i in stack)
    && (forall k {:trigger stack[k]} :: 0 <= k < |stack| ==> stack[k] < |g0| && m[stack[k]] == IN_PROGRESS)
  }

  ghost predicate Finished(g0: Graph, m: IdMap, fin: seq<Id>) {
    && |m| == |g0|
    && (forall i {:trigger m[i]} :: 0 <= i < |g0| && IsRefKind(g0[i].info.kind) && Mapped(m[i]) ==> i in fin)
    && (forall k {:trigger fin[k]} :: 0 <= k < |fin| ==>
        fin[k] < |g0| && IsRefKind(g0[fin[k]].info.kind) && Mapped(m[fin[k]]))
  }

  /** What a call leaves alone: everything that was mapped or in progress before. */
  ghost predicate Kept(g: Graph, m: IdMap, g': Graph, m': IdMap)
    requires |g| == |m|
  {
    && |g'| == |m'| == |m|
    && forall i {:trigger m'[i]} {:trigger g'[i]} :: 0 <= i < |m| && m[i] != UNPROCESSED ==>
        m'[i] == m[i] && g'[i] == g[i]
  }

  ghost predicate KeptBut(i: Id, g: Graph, m: IdMap, g': Graph, m': IdMap)
    requires |g| == |m|
  {
    && |g'| == |m'| == |m|
    && forall k {:trigger m'[k]} {:trigger g'[k]} :: 0 <= k < |m| && m[k] != UNPROCESSED ==>
        m'[k] == m[k] && (k != i ==> g'[k] == g[k])
  }

  /** A type that was in progress is done. */
  lemma KeptOver(g0: Graph, m0: IdMap, g: Graph, m: IdMap, i: Id, r: nat)
    requires |g0| == |m0| && i < |m0| && m0[i] == UNPROCESSED && KeptBut(i, g0, m0[i := IN_PROGRESS], g, m)
    ensures Kept(g0, m0, g, m[i := r])
  {
  }

  ghost predicate ChildrenMapped(g0: Graph, m: IdMap, i: Id)
    requires |m| == |g0| && i < |g0|
  {
    forall k :: 0 <= k < |Refs(g0[i])| ==> Refs(g0[i])[k] < |g0| && Mapped(m[Refs(g0[i])[k]])
  }

  /** A recursive call may only be made along an edge from the type in progress. */
  ghost predicate Reaches(g0: Graph, stack: seq<Id>, i: Id) {
    stack == [] || Edge(g0, stack[|stack| - 1], i)
  }

  /** Meeting a type in progress again closes a cycle of reference types. */
  lemma FoundCycle(g0: Graph, m: IdMap, stack: seq<Id>, i: Id)
    requires InProgress(g0, m, stack) && Path(g0, stack) && Reaches(g0, stack, i)
    requires i < |g0| && m[i] == IN_PROGRESS
    ensures HasRefCycle(g0)
  {
    hide Edge;
    var k :| 0 <= k < |stack| && stack[k] == i;
    var p := stack[k..] + [i];
    forall j {:trigger p[j]} | 0 <= j < |p| - 1 ensures Edge(g0, p[j], p[j + 1]) {
      assert p[j] == stack[k + j];
      if k + j < |stack| - 1 {
        assert p[j + 1] == stack[k + j + 1];
      }
    }
    assert IsRefCycle(g0, p);
  }

  /** `d->map[type_id] = BTF_IN_PROGRESS_ID` */
  lemma BeginType(g0: Graph, exact: bool, g: Graph, m: IdMap, stack: seq<Id>, fin: seq<Id>, i: Id)
    requires RefState(g0, exact, g, m, stack, fin) && Reaches(g0, stack, i)
    requires i < |g0| && m[i] == UNPROCESSED
    ensures RefState(g0, exact, g, m[i := IN_PROGRESS], stack + [i], fin)
  {
    hide Edge, Rewritten, WfGraph, Same;
    assert i != 0;
    MapProgress(g0, exact, m, i);
    SettledRefsStay(g, m, g, m[i := IN_PROGRESS], fin);
    var p := stack + [i];
    forall j {:trigger p[j]} | 0 <= j < |p| - 1 ensures Edge(g0, p[j], p[j + 1]) {
      if j < |stack| - 1 {
        assert p[j] == stack[j] && p[j + 1] == stack[j + 1];
      }
    }
  }

  /** A rewritten reference of a type in progress. */
  lemma RewriteRef(g0: Graph, exact: bool, g: Graph, m: IdMap, stack: seq<Id>, fin: seq<Id>, i: Id, k: nat, r: Id)
    requires RefState(g0, exact, g, m, stack, fin)
    requires 0 < i < |g0| && m[i] == IN_PROGRESS && k < |Refs(g[i])| && r < |g0| && Same(g0, exact, Refs(g[i])[k], r)
    ensures RefState(g0, exact, g[i := SetRef(g[i], k, r)], m, stack, fin)
    ensures Refs(SetRef(g[i], k, r)) == Refs(g[i])[k := r]
  {
    hide Edge, Same, MapOk, WfGraph, Refs, SetRef, InProgress, Path, Topological;
    RewriteStep(g0, exact, g, i, k, r);
    assert |m| <= MAX_NR_TYPES + 1 by { GraphSize(g0); }
    SettledRefsStay(g, m, g[i := SetRef(g[i], k, r)], m, fin);
  }

  lemma GraphSize(g: Graph)
    requires WfGraph(g)
    ensures 0 < |g| <= MAX_NR_TYPES + 1
  {
  }

  /** All children are mapped: the type settles on `j`, itself or an identical canonical one. */
  lemma FinishType(g0: Graph, exact: bool, g: Graph, m: IdMap, stack: seq<Id>, fin: seq<Id>, i: Id, j: Id)
    requires RefState(g0, exact, g, m, stack + [i], fin)
    requires 0 < i < |g0| && m[i] == IN_PROGRESS && i !in stack && IsRefKind(g0[i].info.kind)
    requires forall k :: 0 <= k < |Refs(g0[i])| ==> Refs(g0[i])[k] < |g0| && Mapped(m[Refs(g0[i])[k]])
    requires SettledRefs(g[i], m)
    requires j < |g0| && g[j] == g[i] && (j == i || m[j] == j)
    ensures RefState(g0, exact, g, m[i := j], stack, fin + [i])
    ensures Resolve(g0, m[i := j], i) == j
  {
    ShapeAndRefs(g[i], g0[i]);
    ShapeAndRefs(g[j], g0[j]);
    hide Same, Shape, WellFormed, Refs, LinkOk;
    RewrittenEqual(g0, exact, g, i, j);
    MapFirst(g0, exact, m, i, j);
    var m', fin' := m[i := j], fin + [i];
    FinishOrder(g0, m, fin, i);
    assert forall k :: 0 <= k < |stack| ==> (stack + [i])[k] == stack[k];
    FinishLists(g0, g, m, stack, fin, i, j);
    FinishRefs(g, m, fin, i, j);
    FinishPath(g0, stack, i);
  }

  lemma FinishRefs(g: Graph, m: IdMap, fin: seq<Id>, i: Id, j: Id)
    requires AllSettledRefs(g, m, fin) && i < |g| == |m| <= MAX_NR_TYPES + 1 && m[i] == IN_PROGRESS
        && SettledRefs(g[i], m)
    ensures AllSettledRefs(g, m[i := j], fin + [i])
  {
    hide Refs;
    var m', fin' := m[i := j], fin + [i];
    forall k {:trigger fin'[k]} | 0 <= k < |fin'| ensures fin'[k] < |g| && SettledRefs(g[fin'[k]], m') {
      if k < |fin| {
        assert fin'[k] == fin[k];
      }
    }
  }

  lemma FinishPath(g0: Graph, stack: seq<Id>, i: Id)
    requires Path(g0, stack + [i])
    ensures Path(g0, stack)
  {
    hide Edge;
    var p := stack + [i];
    forall j {:trigger stack[j]} | 0 <= j < |stack| - 1 ensures Edge(g0, stack[j], stack[j + 1]) {
      assert p[j] == stack[j] && p[j + 1] == stack[j + 1];
    }
  }

  lemma FinishLists(g0: Graph, g: Graph, m: IdMap, stack: seq<Id>, fin: seq<Id>, i: Id, j: Id)
    requires 0 < i < |g0| <= MAX_NR_TYPES + 1 && j < |g0| && IsRefKind(g0[i].info.kind) && i !in stack
    requires Pending(g0, g, m) && InProgress(g0, m, stack + [i]) && Finished(g0, m, fin)
    ensures Pending(g0, g, m[i := j]) && InProgress(g0, m[i := j], stack) && Finished(g0, m[i := j], fin + [i])
  {
    var m', fin', p := m[i := j], fin + [i], stack + [i];
    forall k {:trigger stack[k]} | 0 <= k < |stack| ensures stack[k] < |g0| && m'[stack[k]] == IN_PROGRESS {
      assert p[k] == stack[k];
    }
    forall k {:trigger m'[k]} | 0 <= k < |g0| && m'[k] == IN_PROGRESS ensures k in stack {
      assert m[k] == IN_PROGRESS;
    }
    forall k {:trigger m'[k]} | 0 <= k < |g0| && IsRefKind(g0[k].info.kind) && Mapped(m'[k]) ensures k in fin' {
      if k != i {
        assert m[k] == m'[k];
      }
    }
    forall k {:trigger fin'[k]} | 0 <= k < |fin'|
      ensures fin'[k] < |g0| && IsRefKind(g0[fin'[k]].info.kind) && Mapped(m'[fin'[k]])
    {
      if k < |fin| {
        assert fin'[k] == fin[k];
      }
    }
  }

  lemma FinishOrder(g0: Graph, m: IdMap, fin: seq<Id>, i: Id)
    requires i < |g0| && Finished(g0, m, fin) && Topological(g0, fin)
    requires forall k :: 0 <= k < |Refs(g0[i])| ==> Refs(g0[i])[k] < |g0| && Mapped(m[Refs(g0[i])[k]])
    ensures Topological(g0, fin + [i])
  {
    var fin' := fin + [i];
    forall p: nat, r: Id {:trigger Edge(g0, fin'[p], r)} | p < |fin'| && Edge(g0, fin'[p], r) && r < |g0|
        && IsRefKind(g0[r].info.kind)
      ensures r in fin'[..p]
    {
      if p < |fin| {
        assert Edge(g0, fin[p], r);
        assert fin'[..p] == fin[..p];
      } else {
        assert fin'[..p] == fin;
      }
    }
  }

  /** The order in which the reference pass visits the references of a type. */
  function VisitSlot(kind: Kind, k: nat): nat {
    if kind == ARRAY && k <= 1 then 1 - k else k
  }

  /** The first `k` references are rewritten and mapped, the others are those of the input. */
  ghost predicate Visited(g0: Graph, g: Graph, m: IdMap, i: Id, k: nat) {
    && |g| == |m| == |g0| && i < |g0| && g[i].info == g0[i].info && |Refs(g[i])| == |Refs(g0[i])|
    && (g0[i].info.kind == ARRAY ==> |Refs(g0[i])| == 2)
    && (forall j: nat {:trigger VisitSlot(g0[i].info.kind, j)} :: j < |Refs(g0[i])| ==>
          var s := VisitSlot(g0[i].info.kind, j);
          if j < k then
            && Refs(g0[i])[s] < |g0| && Mapped(m[Refs(g0[i])[s]])
            && Refs(g[i])[s] < |g0| && m[Refs(g[i])[s]] == Refs(g[i])[s]
          else Refs(g[i])[s] == Refs(g0[i])[s])
  }

  lemma VisitStart(g0: Graph, g: Graph, m: IdMap, i: Id)
    requires WfGraph(g0) && |g| == |m| == |g0| && i < |g0| && g[i] == g0[i]
    ensures Visited(g0, g, m, i, 0)
  {
    assert WellFormed(g0[i]);
  }

  /** The reference visited next is still that of the input, and an edge leads to it. */
  lemma VisitChild(g0: Graph, g: Graph, m: IdMap, i: Id, k: nat)
    requires WfGraph(g0) && Visited(g0, g, m, i, k) && k < |Refs(g0[i])| && IsRefKind(g0[i].info.kind)
    ensures var s := VisitSlot(g0[i].info.kind, k);
            s < |Refs(g[i])| && Refs(g[i])[s] == Refs(g0[i])[s] && Refs(g[i])[s] < |g0| && Edge(g0, i, Refs(g[i])[s])
  {
    hide Refs, WellFormed;
    var s := VisitSlot(g0[i].info.kind, k);
    assert Refs(g0[i])[s] < |g0|;
  }

  lemma VisitAdvance(g0: Graph, g: Graph, m: IdMap, m': IdMap, i: Id, k: nat, d: Desc)
    requires Visited(g0, g, m, i, k) && k < |Refs(g0[i])| && |m'| == |m|
    requires forall j {:trigger m'[j]} :: 0 <= j < |m| && Mapped(m[j]) ==> m'[j] == m[j]
    requires |g0| <= MAX_NR_TYPES + 1
    requires var s := VisitSlot(g0[i].info.kind, k);
             && d.info == g[i].info && |Refs(d)| == |Refs(g[i])|
                 && (forall j :: 0 <= j < |Refs(d)| && j != s ==> Refs(d)[j] == Refs(g[i])[j])
             && Refs(g0[i])[s] < |g0| && Mapped(m'[Refs(g0[i])[s]])
             && s < |Refs(d)| && Refs(d)[s] < |g0| && m'[Refs(d)[s]] == Refs(d)[s]
    ensures Visited(g0, g[i := d], m', i, k + 1)
  {
    hide Refs;
  }

  /** Only the descriptor of the type itself matters. */
  lemma VisitedAgain(g0: Graph, g: Graph, g': Graph, m: IdMap, i: Id, k: nat)
    requires Visited(g0, g, m, i, k) && |g'| == |g| && g'[i] == g[i]
    ensures Visited(g0, g', m, i, k)
  {
  }

  lemma VisitEnd(g0: Graph, g: Graph, m: IdMap, i: Id)
    requires i < |g0| && Visited(g0, g, m, i, |Refs(g0[i])|)
    ensures ChildrenMapped(g0, m, i) && SettledRefs(g[i], m)
  {
    hide Refs;
    var kind := g0[i].info.kind;
    forall k | 0 <= k < |Refs(g0[i])| ensures Refs(g0[i])[k] < |g0| && Mapped(m[Refs(g0[i])[k]]) {
      assert VisitSlot(kind, VisitSlot(kind, k)) == k;
    }
    forall l {:trigger Refs(g[i])[l]} | 0 <= l < |Refs(g[i])|
      ensures Refs(g[i])[l] < |m| && m[Refs(g[i])[l]] == Refs(g[i])[l]
    {
      assert VisitSlot(kind, VisitSlot(kind, l)) == l;
    }
  }
}
