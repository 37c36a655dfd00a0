/** The canonical map `btf_dedup.map`: every id is unprocessed, in progress, or mapped to
    another id. Following the map never runs in a circle other than a self-loop; in fact
    it takes at most three links (`Level`). */
module CanonMap {
  import opened BtfTypes
  import opened TypeGraph

  const UNPROCESSED: nat := 0xffff_ffff
  const IN_PROGRESS: nat := 0xffff_fffe

  type IdMap = seq<nat>

  /** `is_type_mapped` */
  predicate Mapped(v: nat) { v <= MAX_NR_TYPES }

  /** An id that others may be mapped to. A definition must be canonical. A forward
      declaration must be canonical or already resolved to a definition. */
  ghost predicate Target(g: Graph, m: IdMap, j: Id)
    requires |m| == |g| && j < |g|
  {
    m[j] == j || (FwdLike(g[j]) && m[j] < |g| && !FwdLike(g[m[j]]))
  }

  ghost predicate LinkOk(g: Graph, m: IdMap, i: Id)
    requires |m| == |g| && i < |g|
  {
    var j := m[i];
    && j < |g|
    && (j == i
        || (FwdLike(g[i]) && !FwdLike(g[j]))
        || (FwdLike(g[i]) == FwdLike(g[j]) && Target(g, m, j)))
  }

  ghost predicate WfMap(g: Graph, m: IdMap) {
    && |m| == |g| && 0 < |g| <= MAX_NR_TYPES + 1
    && m[0] == 0
    && forall i {:trigger m[i]} :: 0 <= i < |g| ==>
        (Mapped(m[i]) ==> LinkOk(g, m, i)) && (!Mapped(m[i]) ==> m[i] == UNPROCESSED || m[i] == IN_PROGRESS)
  }

  /** Where the chain from an id ends is at most this many links away. */
  ghost function Level(g: Graph, m: IdMap, i: Id): (n: nat)
    requires WfMap(g, m) && i < |g|
    ensures n <= 3
  {
    if !Mapped(m[i]) || m[i] == i then 0
    else if !FwdLike(g[i]) then 1
    else if !FwdLike(g[m[i]]) then 2
    else 3
  }

  lemma LevelDrops(g: Graph, m: IdMap, i: Id)
    requires WfMap(g, m) && i < |g| && Mapped(m[i]) && m[i] != i
    ensures m[i] < |g| && Level(g, m, m[i]) < Level(g, m, i)
  {
    var j := m[i];
    assert LinkOk(g, m, i);
    assert Mapped(m[j]) ==> LinkOk(g, m, j);
  }

  /** `resolve_type_id` */
  ghost function Resolve(g: Graph, m: IdMap, i: Id): (r: Id)
    requires WfMap(g, m) && i < |g|
    ensures r < |g|
    decreases Level(g, m, i)
  {
    if !Mapped(m[i]) || m[i] == i then i
    else
      LevelDrops(g, m, i);
      Resolve(g, m, m[i])
  }

  /** `resolve_fwd_id` */
  ghost function ResolveFwd(g: Graph, m: IdMap, i: Id): (r: Id)
    requires WfMap(g, m) && i < |g|
    ensures r < |g|
  {
    if g[i].info.kind != FWD then i
    else
      var r := Resolve(g, m, i);
      if g[r].info.kind != FWD then r else i
  }

  /** Resolution ends at a root, and a definition resolves to a definition. */
  lemma {:induction false} ResolveRoot(g: Graph, m: IdMap, i: Id)
    requires WfMap(g, m) && i < |g|
    ensures var r := Resolve(g, m, i);
            (Mapped(m[r]) ==> m[r] == r) && (!FwdLike(g[i]) ==> !FwdLike(g[r]))
                && (Mapped(m[i]) && !FwdLike(g[i]) ==> r == m[i])
    decreases Level(g, m, i)
  {
    if Mapped(m[i]) && m[i] != i {
      LevelDrops(g, m, i);
      ResolveRoot(g, m, m[i]);
      assert LinkOk(g, m, i);
    }
  }

  /** The invariant of every pass: links are well-formed and lead to the same type. */
  ghost predicate MapOk(g: Graph, exact: bool, m: IdMap)
    requires WfGraph(g)
  {
    && WfMap(g, m)
    && forall i {:trigger m[i]} :: 0 <= i < |g| && Mapped(m[i]) ==> m[i] < |g| && Same(g, exact, i, m[i])
  }

  lemma {:induction false} ResolveSame(g: Graph, exact: bool, m: IdMap, i: Id)
    requires WfGraph(g) && MapOk(g, exact, m) && i < |g|
    ensures Same(g, exact, i, Resolve(g, m, i))
    decreases Level(g, m, i)
  {
    hide Same, Level;
    if Mapped(m[i]) && m[i] != i {
      LevelDrops(g, m, i);
      ResolveSame(g, exact, m, m[i]);
      SameTransitive(g, exact, i, m[i], Resolve(g, m, m[i]));
    } else {
      EqualDescsSame(g, exact, i, i);
    }
  }

  lemma BothResolveSame(g: Graph, exact: bool, m: IdMap, a: Id, b: Id)
    requires WfGraph(g) && MapOk(g, exact, m) && a < |g| && b < |g|
    requires Resolve(g, m, a) == Resolve(g, m, b)
    ensures Same(g, exact, a, b)
  {
    hide Same, Resolve;
    ResolveSame(g, exact, m, a);
    ResolveSame(g, exact, m, b);
    var r := Resolve(g, m, a);
    SameTransitive(g, exact, b, r, r) by { EqualDescsSame(g, exact, r, r); }
    SameTransitive(g, exact, a, r, b);
  }

  lemma ResolveFwdSame(g: Graph, exact: bool, m: IdMap, i: Id)
    requires WfGraph(g) && MapOk(g, exact, m) && i < |g|
    ensures Same(g, exact, i, ResolveFwd(g, m, i))
  {
    hide Same, Resolve, MapOk;
    ResolveSame(g, exact, m, i);
    EqualDescsSame(g, exact, i, i);
  }

  // ---------------------------------------------------------------- the writes to the map

  /** A first link for an unprocessed id: to itself, or to a target of the same sort. */
  lemma MapFirst(g: Graph, exact: bool, m: IdMap, i: Id, j: Id)
    requires WfGraph(g) && MapOk(g, exact, m) && 0 < i < |g| && j < |g|
    requires !Mapped(m[i])
    requires j == i || (FwdLike(g[i]) && !FwdLike(g[j]) && m[j] == j)
        || (FwdLike(g[i]) == FwdLike(g[j]) && Target(g, m, j))
    requires Same(g, exact, i, j)
    ensures MapOk(g, exact, m[i := j])
  {
    hide Same;
    var m' := m[i := j];
    forall k | 0 <= k < |g| && Mapped(m'[k]) ensures LinkOk(g, m', k) && Same(g, exact, k, m'[k]) {
      if k != i {
        assert LinkOk(g, m, k);
      }
    }
  }

  /** Marking an unprocessed id as in progress changes no link. */
  lemma MapProgress(g: Graph, exact: bool, m: IdMap, i: Id)
    requires WfGraph(g) && MapOk(g, exact, m) && 0 < i < |g| && !Mapped(m[i])
    ensures MapOk(g, exact, m[i := IN_PROGRESS])
    ensures forall k :: 0 <= k < |g| ==> Resolve(g, m[i := IN_PROGRESS], k) == Resolve(g, m, k)
  {
    var m' := m[i := IN_PROGRESS];
    hide Same, Resolve;
    forall k | 0 <= k < |g| && Mapped(m'[k]) ensures LinkOk(g, m', k) {
      assert LinkOk(g, m, k);
    }
    assert MapOk(g, exact, m');
    forall k | 0 <= k < |g| ensures Resolve(g, m', k) == Resolve(g, m, k) {
      ProgressKeepsResolve(g, m, m', i, k);
    }
  }

  lemma {:induction false} ProgressKeepsResolve(g: Graph, m: IdMap, m': IdMap, i: Id, k: Id)
    requires WfMap(g, m) && WfMap(g, m') && i < |g| && k < |g| && !Mapped(m[i]) && m' == m[i := IN_PROGRESS]
    ensures Resolve(g, m', k) == Resolve(g, m, k)
    decreases Level(g, m, k)
  {
    if Mapped(m[k]) && m[k] != k {
      LevelDrops(g, m, k);
      ProgressKeepsResolve(g, m, m', i, m[k]);
    }
  }

  /** Resolving a forward declaration, or a struct whose partner is canonical:
      a root is linked to another root. */
  ghost predicate Linkable(g: Graph, m: IdMap, r: Id, s: Id)
    requires |m| == |g| && r < |g| && s < |g|
  {
    || (FwdLike(g[r]) && !FwdLike(g[s]))
    || (IsComposite(g[r].info.kind) && !Mapped(m[r]) && IsComposite(g[s].info.kind) && m[s] == s)
  }

  lemma MapLink(g: Graph, exact: bool, m: IdMap, r: Id, s: Id)
    requires WfGraph(g) && MapOk(g, exact, m) && 0 < r < |g| && s < |g|
    requires Linkable(g, m, r, s) && Same(g, exact, r, s)
    ensures MapOk(g, exact, m[r := s])
  {
    hide Same;
    var m' := m[r := s];
    forall k | 0 <= k < |g| && Mapped(m'[k]) ensures LinkOk(g, m', k) && Same(g, exact, k, m'[k]) {
      if k != r {
        assert LinkOk(g, m, k);
      }
    }
  }

  /** Linking `r` to a definition leaves resolved what resolved to a definition, and resolves
      what ended at `r`. */
  lemma {:induction false} StaysResolved(g: Graph, m: IdMap, m': IdMap, r: Id, s: Id, x: Id)
    requires WfMap(g, m) && WfMap(g, m') && r < |g| && s < |g| && x < |g| && m' == m[r := s] && !FwdLike(g[s])
    requires !FwdLike(g[Resolve(g, m, x)]) || Resolve(g, m, x) == r
    ensures !FwdLike(g[Resolve(g, m', x)])
    decreases Level(g, m, x)
  {
    if x == r {
      ResolveRoot(g, m', s);
    } else if Mapped(m[x]) && m[x] != x {
      LevelDrops(g, m, x);
      StaysResolved(g, m, m', r, s, m[x]);
    }
  }

  /** What the merge does for a recorded pair: a forward declaration paired with a struct is
      resolved, and a struct paired with one that was mapped is mapped. */
  ghost predicate PairMerged(g: Graph, m0: IdMap, m: IdMap, t: Id, c: Id) {
    && WfMap(g, m) && |m0| == |g| && t < |g| && c < |g|
    && (g[c].info.kind == FWD && IsComposite(g[t].info.kind) ==> !FwdLike(g[Resolve(g, m, c)]))
    && (g[t].info.kind == FWD && IsComposite(g[c].info.kind) ==> !FwdLike(g[Resolve(g, m, t)]))
    && (IsComposite(g[t].info.kind) && IsComposite(g[c].info.kind) && Mapped(m0[c]) ==> Mapped(m[t]))
  }

  /** Later links undo none of it. */
  lemma MergedStays(g: Graph, m0: IdMap, m: IdMap, r: Id, s: Id)
    requires WfMap(g, m) && r < |g| && s < |g| && WfMap(g, m[r := s]) && !FwdLike(g[s])
    ensures forall t: Id, c: Id {:trigger PairMerged(g, m0, m, t, c)} {:trigger PairMerged(g, m0, m[r := s], t, c)} ::
              PairMerged(g, m0, m, t, c) ==> PairMerged(g, m0, m[r := s], t, c)
  {
    hide WfMap, FwdLike, Resolve;
    GraphFits(g, m);
    forall t: Id, c: Id | PairMerged(g, m0, m, t, c) ensures PairMerged(g, m0, m[r := s], t, c) {
      if g[c].info.kind == FWD && IsComposite(g[t].info.kind) {
        StaysResolved(g, m, m[r := s], r, s, c);
      }
      if g[t].info.kind == FWD && IsComposite(g[c].info.kind) {
        StaysResolved(g, m, m[r := s], r, s, t);
      }
    }
  }

  lemma GraphFits(g: Graph, m: IdMap)
    requires WfMap(g, m)
    ensures |m| == |g| <= MAX_NR_TYPES + 1
  {
  }

  /** A mapped definition leads to a canonical one. */
  lemma MappedRoot(g: Graph, m: IdMap, i: Id)
    requires WfMap(g, m) && i < |g| && Mapped(m[i]) && !FwdLike(g[i])
    ensures Mapped(m[Resolve(g, m, i)])
  {
    ResolveRoot(g, m, i);
    assert LinkOk(g, m, i);
  }

  /** One round of the merge settles its own pair. */
  lemma RoundMerges(g: Graph, m0: IdMap, m: IdMap, m': IdMap, t: Id, c: Id)
    requires WfMap(g, m) && WfMap(g, m') && t < |g| && c < |g| && |m0| == |g| && Evolves(g, m0, m)
    requires TagOf(g[Resolve(g, m, t)]) == TagOf(g[Resolve(g, m, c)]) == TagOf(g[t]) == TagOf(g[c])
    requires m' == MergeRound(g, m, t, c)
    ensures PairMerged(g, m0, m', t, c)
  {
    var tId, cId := Resolve(g, m, t), Resolve(g, m, c);
    ResolveRoot(g, m, t);
    ResolveRoot(g, m, c);
    if Mapped(m[c]) && !FwdLike(g[c]) {
      MappedRoot(g, m, c);
    }
    assert !Mapped(m[t]) ==> tId == t;
    hide Resolve, WfMap;
    GraphFits(g, m);
    if g[tId].info.kind != FWD && g[cId].info.kind == FWD {
      StaysResolved(g, m, m', cId, tId, c);
    } else if g[tId].info.kind == FWD && g[cId].info.kind != FWD {
      StaysResolved(g, m, m', tId, cId, t);
    } else if m' != m {
      if !FwdLike(g[cId]) {
        StaysResolved(g, m, m', tId, cId, c);
        StaysResolved(g, m, m', tId, cId, t);
      }
    }
  }

  /** The map after one round of the loop of `btf_dedup_merge_hypot_map`. */
  ghost function MergeRound(g: Graph, m: IdMap, t: Id, c: Id): IdMap
  {
    if !WfMap(g, m) || t >= |g| || c >= |g| then m else
    var tId, cId := Resolve(g, m, t), Resolve(g, m, c);
    if g[tId].info.kind != FWD && g[cId].info.kind == FWD then m[cId := tId]
    else if g[tId].info.kind == FWD && g[cId].info.kind != FWD then m[tId := cId]
    else if IsComposite(g[tId].info.kind) && g[cId].info.kind != FWD && Mapped(m[cId])
        && !Mapped(m[tId]) then m[tId := cId]
    else m
  }

  /** All rounds, for the pairs recorded in `h`, in the order of the list. */
  ghost function MergeRounds(g: Graph, m: IdMap, h: seq<nat>, list: seq<Id>): IdMap {
    if list == [] then m else
    var n := |list| - 1;
    var m' := MergeRounds(g, m, h, list[..n]);
    if list[n] < |h| then MergeRound(g, m', h[list[n]], list[n]) else m'
  }

  // ---------------------------------------------------------------- resolved forward declarations

  /** No forward declaration is mapped to a definition. */
  ghost predicate Unresolved(g: Graph, m: IdMap) {
    forall i {:trigger m[i]} :: 0 <= i < |g| && i < |m| && FwdLike(g[i]) && m[i] < |g| ==> FwdLike(g[m[i]])
  }

  /** Then none resolves to one either. */
  lemma {:induction false} UnresolvedStays(g: Graph, m: IdMap, i: Id)
    requires WfMap(g, m) && i < |g| && FwdLike(g[i]) && Unresolved(g, m)
    ensures FwdLike(g[Resolve(g, m, i)])
    decreases Level(g, m, i)
  {
    if Mapped(m[i]) && m[i] != i {
      LevelDrops(g, m, i);
      UnresolvedStays(g, m, m[i]);
    }
  }

  /** What is resolved stays so. */
  lemma EvolvesResolved(g: Graph, m: IdMap, m': IdMap)
    requires |m| == |g| && Evolves(g, m, m') && Unresolved(g, m')
    ensures Unresolved(g, m)
  {
    forall i {:trigger m[i]} | 0 <= i < |g| && FwdLike(g[i]) && m[i] < |g| ensures FwdLike(g[m[i]]) {
      assert m'[i] == m[i];
    }
  }

  /** What the merge of a hypothetical map may do to the canonical map. */
  ghost predicate Evolves(g: Graph, m: IdMap, m': IdMap)
    requires |m| == |g|
  {
    && |m'| == |m|
    && forall i {:trigger m'[i]} :: 0 <= i < |g| ==>
         || m'[i] == m[i]
         || (FwdLike(g[i]) && m'[i] < |g| && !FwdLike(g[m'[i]]))
         || (IsComposite(g[i].info.kind) && !Mapped(m[i]) && m'[i] < |g| && m'[i] != i && m[m'[i]] == m'[i]
             && m'[m'[i]] == m'[i] && IsComposite(g[m'[i]].info.kind))
  }

  lemma EvolvesStep(g: Graph, m0: IdMap, m: IdMap, r: Id, s: Id)
    requires |m0| == |m| == |g| <= MAX_NR_TYPES + 1 && r < |g| && s < |g| && r != s
    requires Evolves(g, m0, m) && Linkable(g, m, r, s)
    ensures Evolves(g, m0, m[r := s])
  {
  }

  /** Replacing the link of an evolved struct by another canonical struct. */
  lemma MapStruct(g: Graph, exact: bool, m0: IdMap, m: IdMap, i: Id, j: Id)
    requires WfGraph(g) && MapOk(g, exact, m) && 0 < i < |g| && j < |g| && |m0| == |g|
    requires Evolves(g, m0, m) && !Mapped(m0[i]) && IsComposite(g[i].info.kind)
    requires i == j || (m[j] == j && IsComposite(g[j].info.kind))
    requires Same(g, exact, i, j)
    ensures MapOk(g, exact, m[i := j])
  {
    hide Same;
    var m' := m[i := j];
    assert m[i] != i;
    forall k | 0 <= k < |g| && Mapped(m'[k]) ensures LinkOk(g, m', k) && Same(g, exact, k, m'[k]) {
      if k != i {
        assert LinkOk(g, m, k);
      }
    }
  }

  /** Every id is mapped: then each one resolves to a canonical id. */
  lemma AllMappedResolve(g: Graph, m: IdMap, i: Id)
    requires WfMap(g, m) && i < |g| && forall k :: 0 <= k < |g| ==> Mapped(m[k])
    ensures m[Resolve(g, m, i)] == Resolve(g, m, i)
  {
    ResolveRoot(g, m, i);
  }
}
