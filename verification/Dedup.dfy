/** BTF deduplication (btf.c): the passes that find canonical types, compact the
    descriptors and rewrite every reference. */
module Dedup {
  import opened BtfTypes
  import opened TypeGraph
  import opened CanonMap
  import opened Equivalence
  import opened DedupTable
  import opened RefPass
  import opened Fields
  import opened Meaning
  import opened Distinctness
  import HashMaps

  const EINVAL: int := 22
  const ELOOP: int := 40

  /** Ids at which a hypothetical map records nothing yet. */
  ghost function Unset(h: Hypot): set<nat> {
    set c | 0 <= c < |h| && h[c] == UNPROCESSED
  }

  /** Everything recorded after `h0` has its obligations met in `h`. */
  ghost predicate NewOk(g: Graph, exact: bool, m: IdMap, h0: Hypot, h: Hypot)
    requires WfGraph(g) && WfMap(g, m) && WfHypot(g, h) && |h0| == |h|
  {
    forall c {:trigger h[c]} :: 0 <= c < |h| && h0[c] == UNPROCESSED && h[c] != UNPROCESSED ==>
        EntryOk(g, exact, m, h, c)
  }

  lemma NewOkJoins(g: Graph, exact: bool, m: IdMap, h0: Hypot, h1: Hypot, h2: Hypot)
    requires WfGraph(g) && WfMap(g, m) && WfHypot(g, h1) && WfHypot(g, h2) && |h0| == |h1|
    requires Extends(h1, h2) && NewOk(g, exact, m, h0, h1) && NewOk(g, exact, m, h1, h2)
    ensures NewOk(g, exact, m, h0, h2)
  {
    hide EntryOk;
    forall c | 0 <= c < |h2| && h0[c] == UNPROCESSED && h2[c] != UNPROCESSED ensures EntryOk(g, exact, m, h2, c) {
      if h1[c] != UNPROCESSED {
        assert h2[c] == h1[c];
        EntryOkMonotone(g, exact, m, h1, h2, c);
      }
    }
  }

  /** A closed map `w` that contains the pair, and everything recorded so far. */
  ghost predicate Witness(g: Graph, exact: bool, m: IdMap, h: Hypot, w: Hypot)
    requires WfGraph(g) && WfMap(g, m)
  {
    Closed(g, exact, m, w) && Extends(h, w)
  }

  lemma NewOkOneMore(g: Graph, exact: bool, m: IdMap, h0: Hypot, h1: Hypot, h2: Hypot, c: Id)
    requires WfGraph(g) && WfMap(g, m) && WfHypot(g, h2) && |h0| == |h1| && c < |h0| && h1 == h0[c := h1[c]]
        && Extends(h1, h2)
    requires h1[c] != UNPROCESSED && EntryOk(g, exact, m, h2, c) && NewOk(g, exact, m, h1, h2)
    ensures NewOk(g, exact, m, h0, h2)
  {
    hide EntryOk;
  }

  /** The input breaks a rule of the format: a stray void, or a reference to a variable. */
  ghost predicate Malformed(g: Graph) {
    HasVoid(g) || !ProperRefs(g)
  }

  /** Two ids of void are one id, or resolve to one. */
  lemma VoidsResolveAlike(g: Graph, m: IdMap, cand: Id, canon: Id)
    requires WfMap(g, m) && cand < |g| && canon < |g|
    ensures cand == 0 && ResolveFwd(g, m, canon) == 0 ==> Resolve(g, m, cand) == Resolve(g, m, canon)
  {
  }

  lemma InvalidReason(g: Graph, exact: bool, cand: Id, canon: Id)
    requires WfGraph(g) && cand < |g| && canon < |g| && HeadVerdict(exact, g[cand], g[canon]) == Invalid
    requires HasVoid(g) || cand != 0 || canon != 0
    ensures Malformed(g) || IsVariable(g[cand].info.kind)
  {
    hide Refs, WellFormed;
    assert g[cand].info.kind == g[canon].info.kind;
  }

  lemma ProperChildren(g: Graph, exact: bool, cand: Id, canon: Id)
    requires WfGraph(g) && cand < |g| && canon < |g| && HeadVerdict(exact, g[cand], g[canon]) == Descend
    ensures !Malformed(g) ==> forall k :: 0 <= k < |Refs(g[cand])| ==> !IsVariable(g[Refs(g[cand])[k]].info.kind)
  {
    hide Refs, WellFormed;
    assert g[cand].info.kind != DATASEC;
  }

  /** A struct or union duplicates another one: they agree but for their member types, and some
      closed hypothetical map settles the pair. */
  ghost predicate Duplicates(g: Graph, exact: bool, m: IdMap, i: Id, j: Id)
    requires WfGraph(g) && WfMap(g, m) && i < |g|
  {
    && j < |g|
    && IsComposite(g[i].info.kind)
    && StructsShallowEqual(g[i], g[j])
    && Settles(g, exact, m, i, j)
  }

  ghost predicate Settles(g: Graph, exact: bool, m: IdMap, i: Id, j: Id)
    requires WfGraph(g) && WfMap(g, m) && i < |g| && j < |g|
  {
    exists w :: Closed(g, exact, m, w) && PairOk(g, m, w, i, j)
  }

  /** A pair is settled exactly if it agrees in some map all of whose pairs do. */
  lemma SettlesExactly(g: Graph, exact: bool, m: IdMap, i: Id, j: Id)
    requires WfGraph(g) && WfMap(g, m) && i < |g| && j < |g|
    ensures Settles(g, exact, m, i, j) <==>
              exists h: Hypot :: Agreement(g, exact, m, h) && ChildAgrees(g, m, h, i, j)
  {
    hide WfGraph, WfMap, PairOk, ChildAgrees, EntryOk, Agrees;
    forall h: Hypot ensures Closed(g, exact, m, h) <==> Agreement(g, exact, m, h) {
      AgreementExactly(g, exact, m, h);
    }
    forall h: Hypot | |h| == |g| ensures PairOk(g, m, h, i, j) <==> ChildAgrees(g, m, h, i, j) {
      ChildExactly(g, m, h, i, j);
    }
  }

  /** The outcome of the struct pass for `i`: it is mapped to a filed duplicate, or it is
      canonical and no filed struct is one. */
  ghost predicate StructSettled(g: Graph, exact: bool, m: IdMap, entries: multiset<File>, i: Id, j: Id)
    requires WfGraph(g) && WfMap(g, m) && i < |g|
  {
    if j == i then forall e :: e in entries && e.key == Signature(g[i]) ==> !Duplicates(g, exact, m, i, e.value)
    else HashMaps.Entry(Signature(g[i]), j) in entries && Duplicates(g, exact, m, i, j)
  }

  /** No canonical struct or union is a duplicate. */
  ghost predicate NoDuplicates(g: Graph, exact: bool, m: IdMap, i: Id)
    requires WfGraph(g) && WfMap(g, m) && i < |g|
  {
    forall j {:trigger m[j]} :: 0 < j < |g| && m[j] == j ==> !Duplicates(g, exact, m, i, j)
  }

  /** The list names the ids at which something is recorded. */
  ghost predicate Lists(h: Hypot, list: seq<Id>) {
    && (forall c {:trigger h[c]} :: 0 <= c < |h| ==> (h[c] != UNPROCESSED <==> c in list))
    && forall k {:trigger list[k]} :: 0 <= k < |list| ==> list[k] < |h|
  }

  /** The struct `i` is mapped to the canonical struct `j`, after everything recorded in a closed
      map that settles the pair was merged in some order. */
  ghost predicate Adopts(g: Graph, exact: bool, m: IdMap, i: Id, j: Id, h: Hypot, list: seq<Id>, m': IdMap)
    requires WfGraph(g) && WfMap(g, m)
  {
    && i < |g| && j < |g| && m[j] == j && Closed(g, exact, m, h) && PairOk(g, m, h, i, j) && Lists(h, list)
    && i < |MergeRounds(g, m, h, list)| && m' == MergeRounds(g, m, h, list)[i := j]
  }

  /** One type of the struct pass. */
  ghost predicate StructStep(g: Graph, exact: bool, m: IdMap, i: Id, m': IdMap) {
    && WfGraph(g) && WfMap(g, m) && MapOk(g, exact, m) && i < |g|
    && if Mapped(m[i]) || !IsComposite(g[i].info.kind) then m' == m
       else if m' == m[i := i] then NoDuplicates(g, exact, m, i)
       else exists j: Id, h: Hypot, list: seq<Id> ::
           Adopts(g, exact, m, i, j, h, list, m') && Duplicates(g, exact, m, i, j)
  }

  lemma AdoptStep(g: Graph, exact: bool, m: IdMap, i: Id, j: Id, h: Hypot, list: seq<Id>, m': IdMap)
    requires WfGraph(g) && WfMap(g, m) && MapOk(g, exact, m) && i < |g| && !Mapped(m[i])
    requires Adopts(g, exact, m, i, j, h, list, m') && Duplicates(g, exact, m, i, j)
    ensures StructStep(g, exact, m, i, m')
  {
    hide Closed, PairOk, Settles, StructsShallowEqual, WellFormed, LinkOk, Refs;
    assert i != j && m'[i] == j;
  }

  /** The canonical map before the struct pass, and after each type of it so far. */
  ghost predicate StructTrace(g: Graph, exact: bool, ms: seq<IdMap>) {
    && 0 < |ms| && PrimResult(g, exact, ms[0])
    && forall i: Id {:trigger ms[i]} :: 0 < i < |ms| ==> StructStep(g, exact, ms[i - 1], i, ms[i])
  }

  lemma TraceNext(g: Graph, exact: bool, ms: seq<IdMap>, m: IdMap)
    requires StructTrace(g, exact, ms) && StructStep(g, exact, ms[|ms| - 1], |ms|, m)
    ensures StructTrace(g, exact, ms + [m])
  {
    hide PrimResult, StructStep;
  }

  /** The struct pass leads from the map of the primitive pass to this one. */
  ghost predicate StructPass(g: Graph, exact: bool, m: IdMap) {
    exists ms: seq<IdMap> :: StructTrace(g, exact, ms) && |ms| == |g| && ms[|g| - 1] == m
  }

  /** Shallow equality is at most as coarse as the signature, so no duplicate is overlooked. */
  lemma NothingOverlooked(g: Graph, exact: bool, m: IdMap, entries: multiset<File>, i: Id)
    requires WfGraph(g) && WfMap(g, m) && i < |g| && TableOk(g, m, entries) && IsComposite(g[i].info.kind)
    requires StructSettled(g, exact, m, entries, i, i)
    ensures NoDuplicates(g, exact, m, i)
  {
    hide Signature, WellFormed, Settles, LinkOk;
    forall j {:trigger m[j]} | 0 < j < |g| && m[j] == j ensures !Duplicates(g, exact, m, i, j) {
      if IsComposite(g[j].info.kind) {
        assert HashMaps.Entry(Signature(g[j]), j) in entries;
        if StructsShallowEqual(g[i], g[j]) {
          ShallowSignature(g[i], g[j]);
        }
      }
    }
  }

  /** Identical structs are duplicates, whatever was deduplicated before. */
  lemma TwinsSettle(g: Graph, exact: bool, m: IdMap, i: Id, j: Id)
    requires WfGraph(g) && WfMap(g, m) && i < |g| && j < |g| && IsComposite(g[i].info.kind) && g[i] == g[j]
    ensures Duplicates(g, exact, m, i, j)
  {
    hide Resolve, Refs;
    var w := seq(|g|, c => if c == j then i else UNPROCESSED);
    assert HeadVerdict(exact, g[i], g[j]) == Descend;
    assert EntryOk(g, exact, m, w, j);
    assert Closed(g, exact, m, w) && PairOk(g, m, w, i, j);
  }

  /** Void and the types that are never deduplicated map to themselves. */
  ghost predicate IsInitial(g: Graph, m: IdMap) {
    |m| == |g| && forall i :: 0 <= i < |g| ==>
      m[i] == if i == 0 || g[i].info.kind == VAR || g[i].info.kind == DATASEC then i else UNPROCESSED
  }

  lemma InitialMap(g: Graph, exact: bool, m: IdMap)
    requires WfGraph(g) && IsInitial(g, m)
    ensures MapOk(g, exact, m) && TableOk(g, m, multiset{})
  {
    hide Same, WellFormed, Signature, Refs, Roomy;
    RoomyEmpty(m);
    forall i | 0 <= i < |g| && Mapped(m[i]) ensures Same(g, exact, i, m[i]) {
      EqualDescsSame(g, exact, i, i);
    }
  }

  /** The map entry `v` of type `i` of kind `k`, before and after the primitive pass sees it. */
  predicate PrimState(k: Kind, i: Id, v: nat, seen: bool) {
    && (!Mapped(v) ==> v == UNPROCESSED && (!seen || IsComposite(k) || IsRefKind(k)))
    && (!seen && IsPrimKind(k) ==> v == UNPROCESSED)
    && (k == VAR || k == DATASEC ==> v == i && Mapped(v))
    && (IsRefKind(k) ==> v == UNPROCESSED)
    && (seen ==> k != VOID)
  }

  /** Before the primitive pass looks at id `n`: so far primitive types are mapped to primitive
      types, and nothing else is mapped. */
  ghost predicate PrimsUpTo(g: Graph, m: IdMap, n: nat) {
    && |m| == |g|
    && (forall i {:trigger m[i]} :: 0 < i < |g| ==> PrimState(g[i].info.kind, i, m[i], i < n))
    && forall i {:trigger m[i]} :: 0 < i < |g| ==>
         && (IsPrimKind(g[i].info.kind) && Mapped(m[i]) ==> m[i] < |g| && IsPrimKind(g[m[i]].info.kind))
         && (IsComposite(g[i].info.kind) ==> m[i] == UNPROCESSED)
  }

  /** After the primitive pass only structs, unions and reference types are unmapped, and forward
      enums with a full one were resolved. */
  ghost predicate PrimsDone(g: Graph, exact: bool, m: IdMap) {
    && |m| == |g|
    && (forall i {:trigger m[i]} :: 0 < i < |g| ==> PrimState(g[i].info.kind, i, m[i], true))
    && (!exact && HasEnumClash(g, |g|) ==> !Unresolved(g, m))
  }

  /** A forward enum and a full enum that it is compatible with. */
  ghost predicate EnumClash(g: Graph, i: Id, j: Id) {
    && i < |g| && j < |g| && WellFormed(g[i]) && WellFormed(g[j])
    && g[i].info.kind == ENUM && g[j].info.kind == ENUM && IsEnumFwd(g[i]) && !IsEnumFwd(g[j])
        && EnumsCompatible(g[i], g[j])
  }

  ghost predicate HasEnumClash(g: Graph, n: nat) {
    exists i: Id, j: Id :: i < n && j < n && EnumClash(g, i, j)
  }

  /** The map the primitive pass leaves to the structs. */
  ghost predicate PrimResult(g: Graph, exact: bool, m: IdMap) {
    && WfGraph(g) && MapOk(g, exact, m) && PrimsDone(g, exact, m) && PrimsUpTo(g, m, |g|)
    && (!exact && !Unresolved(g, m) ==> HasEnumClash(g, |g|))
  }

  // ---------------------------------------------------------------- forward enums

  /** Below `n` every enum was filed, or an identical one was, unless it was resolved; and with
      a forward enum and a full one some forward enum was resolved, and no other. */
  ghost predicate EnumsUpTo(g: Graph, m: IdMap, entries: multiset<File>, n: nat)
    requires |m| == |g|
  {
    && (forall i: Id :: 0 < i < |g| && i < n && g[i].info.kind == ENUM ==> EnumFiled(g, m, entries, i))
    && (HasEnumClash(g, n) ==> !Unresolved(g, m))
    && (!Unresolved(g, m) ==> HasEnumClash(g, |g|))
  }

  ghost predicate EnumFiled(g: Graph, m: IdMap, entries: multiset<File>, i: Id)
    requires |m| == |g| && i < |g|
  {
    && m[i] < |g|
    && if FwdLike(g[i]) && !FwdLike(g[m[i]]) then true
       else g[m[i]] == g[i] && WellFormed(g[i]) && HashMaps.Entry(Signature(g[i]), m[i]) in entries
  }

  /** What the candidates loop for enum `n` may change: forward enums that it takes over. */
  ghost predicate TakesOver(g: Graph, m: IdMap, m1: IdMap, n: Id) {
    && n < |g| == |m| == |m1|
    && forall i {:trigger m1[i]} :: 0 <= i < |g| ==>
         m1[i] == m[i] || (m1[i] == n && FwdLike(g[i]) && !FwdLike(g[n]) && EnumClash(g, i, n))
  }

  /** What an enum that is mapped to another one has found. */
  ghost predicate EnumFound(g: Graph, entries: multiset<File>, n: Id, j: Id) {
    && n < |g| && j < |g| && n != j
    && if FwdLike(g[n]) && !FwdLike(g[j]) then EnumClash(g, n, j)
       else g[j] == g[n] && WellFormed(g[n]) && HashMaps.Entry(Signature(g[n]), j) in entries
  }

  lemma TakeoverResolves(g: Graph, m: IdMap, m1: IdMap, n: Id, j: Id)
    requires TakesOver(g, m, m1, n) && |g| <= MAX_NR_TYPES + 1 && !Mapped(m[n]) && j < |g|
    ensures !Unresolved(g, m) ==> !Unresolved(g, m1) && !Unresolved(g, m1[n := j])
  {
    if !Unresolved(g, m) {
      var i :| 0 <= i < |g| && FwdLike(g[i]) && m[i] < |g| && !FwdLike(g[m[i]]);
      assert m1[i] < |g| && !FwdLike(g[m1[i]]);
      assert i != n;
      assert m1[n := j][i] == m1[i];
    }
  }

  /** Compatible enums are filed under one signature. */
  lemma ClashSignature(g: Graph, i: Id, j: Id)
    requires EnumClash(g, i, j)
    ensures Signature(g[i]) == Signature(g[j])
  {
  }

  /** One enum of the pass. */
  lemma EnumsNext(g: Graph, m: IdMap, m1: IdMap, entries: multiset<File>, n: Id, j: Id, entries': multiset<File>)
    requires WfGraph(g) && WfMap(g, m) && WfMap(g, m1) && TableOk(g, m, entries) && PrimsUpTo(g, m, n)
    requires 0 < n < |g| && g[n].info.kind == ENUM && !Mapped(m[n]) && EnumsUpTo(g, m, entries, n)
        && TakesOver(g, m, m1, n) && j < |g|
    requires if j == n then
               && entries' == entries + multiset{HashMaps.Entry(Signature(g[n]), n)}
               && forall e: File :: e in entries && e.key == Signature(g[n]) ==> Taken(g, m1, n, e.value)
             else entries' == entries && EnumFound(g, entries, n, j)
    ensures EnumsUpTo(g, m1[n := j], entries', n + 1)
  {
    hide Signature, Refs, WellFormed, TableOk, WfMap, PrimsUpTo, EnumsCompatible, FwdLike;
    var m' := m1[n := j];
    assert |g| <= MAX_NR_TYPES + 1;
    forall i: Id | 0 < i < |g| && i < n + 1 && g[i].info.kind == ENUM ensures EnumFiled(g, m', entries', i) {
      if i < n {
        assert m1[i] == m[i] || m1[i] == n;
        assert EnumFiled(g, m, entries, i);
      } else {
        assert WellFormed(g[n]);
      }
    }
    if HasEnumClash(g, n + 1) {
      var i: Id, k: Id :| i < n + 1 && k < n + 1 && EnumClash(g, i, k);
      TakeoverResolves(g, m, m1, n, j);
      if i < n && k < n {
        assert HasEnumClash(g, n);
      } else if k < n {
        ClashWithForward(g, m, m1, entries, n, j, k);
      } else {
        ClashWithFull(g, m, m1, entries, n, j, i);
      }
    }
  }

  /** The new enum is a forward one, and a full one came before. */
  lemma ClashWithForward(g: Graph, m: IdMap, m1: IdMap, entries: multiset<File>, n: Id, j: Id, k: Id)
    requires WfGraph(g) && WfMap(g, m) && WfMap(g, m1) && TableOk(g, m, entries) && PrimsUpTo(g, m, n)
    requires 0 < n < |g| && !Mapped(m[n]) && EnumsUpTo(g, m, entries, n) && TakesOver(g, m, m1, n) && j < |g|
    requires EnumClash(g, n, k) && k < n
    requires if j == n then forall e: File :: e in entries && e.key == Signature(g[n]) ==> Taken(g, m1, n, e.value)
             else EnumFound(g, entries, n, j)
    ensures !Unresolved(g, m1[n := j])
  {
    ClashSignature(g, n, k);
    hide Signature, Refs;
    TakeoverResolves(g, m, m1, n, j);
    var m' := m1[n := j];
    assert k != 0;
    assert EnumFiled(g, m, entries, k);
    var full: File := HashMaps.Entry(Signature(g[k]), m[k]);
    assert full in entries && Filed(g, m, full) && m1[full.value] == m[full.value];
    if j == n {
      assert false;
    } else if FwdLike(g[j]) {
      var e: File := HashMaps.Entry(Signature(g[n]), j);
      assert e in entries && Filed(g, m, e);
      assert PrimState(g[j].info.kind, j, m[j], j < n);
      assert EnumClash(g, j, k);
      assert HasEnumClash(g, n);
    } else {
      assert m'[n] == j;
    }
  }

  /** The new enum is a full one, and a forward one came before. */
  lemma ClashWithFull(g: Graph, m: IdMap, m1: IdMap, entries: multiset<File>, n: Id, j: Id, i: Id)
    requires WfGraph(g) && WfMap(g, m) && WfMap(g, m1) && TableOk(g, m, entries) && PrimsUpTo(g, m, n)
    requires 0 < n < |g| && !Mapped(m[n]) && EnumsUpTo(g, m, entries, n) && TakesOver(g, m, m1, n) && j < |g|
    requires EnumClash(g, i, n) && i < n
    requires if j == n then forall e: File :: e in entries && e.key == Signature(g[n]) ==> Taken(g, m1, n, e.value)
             else EnumFound(g, entries, n, j)
    ensures !Unresolved(g, m1[n := j])
  {
    ClashSignature(g, i, n);
    hide Signature, Refs;
    TakeoverResolves(g, m, m1, n, j);
    var m' := m1[n := j];
    assert i != 0;
    assert EnumFiled(g, m, entries, i);
    if FwdLike(g[m[i]]) {
      if j == n {
        var e: File := HashMaps.Entry(Signature(g[i]), m[i]);
        assert Taken(g, m1, n, e.value);
        assert m'[m[i]] == n;
      } else {
        var e: File := HashMaps.Entry(Signature(g[n]), j);
        assert e in entries && Filed(g, m, e);
        assert PrimState(g[j].info.kind, j, m[j], j < n);
        assert EnumClash(g, i, j);
        assert HasEnumClash(g, n);
      }
    }
  }

  /** A type that is not an enum leaves the enums alone. */
  lemma EnumsPass(g: Graph, m: IdMap, entries: multiset<File>, n: Id, j: Id, entries': multiset<File>)
    requires |m| == |g| <= MAX_NR_TYPES + 1 && EnumsUpTo(g, m, entries, n) && n < |g| && g[n].info.kind != ENUM
    requires (!Mapped(m[n]) || m[n] == j) && (FwdLike(g[n]) && j < |g| ==> FwdLike(g[j])) && entries <= entries'
    ensures EnumsUpTo(g, m[n := j], entries', n + 1)
  {
    hide Signature, WellFormed, EnumsCompatible, FwdLike;
    var m' := m[n := j];
    forall i: Id | 0 < i < |g| && i < n + 1 && g[i].info.kind == ENUM ensures EnumFiled(g, m', entries', i) {
      assert EnumFiled(g, m, entries, i);
    }
    if HasEnumClash(g, n + 1) {
      var i: Id, k: Id :| i < n + 1 && k < n + 1 && EnumClash(g, i, k);
      assert HasEnumClash(g, n);
      var x :| 0 <= x < |g| && FwdLike(g[x]) && m[x] < |g| && !FwdLike(g[m[x]]);
      assert m'[x] == m[x];
    }
  }

  /** After the struct pass only reference types are unmapped. */
  ghost predicate StructsDone(g: Graph, m: IdMap) {
    && |m| == |g|
    && forall i {:trigger m[i]} :: 0 < i < |g| ==> if IsRefKind(g[i].info.kind) then m[i] == UNPROCESSED
        else Mapped(m[i]) && g[i].info.kind != VOID
  }

  lemma PrimsAdvance(g: Graph, m: IdMap, i: Id, j: Id)
    requires PrimsUpTo(g, m, i) && 0 < i < |g| && Mapped(j) && IsPrimKind(g[i].info.kind) && j < |g|
        && IsPrimKind(g[j].info.kind)
    ensures PrimsUpTo(g, m[i := j], i + 1)
  {
  }

  lemma PrimsTake(g: Graph, m: IdMap, n: Id, c: Id)
    requires PrimsUpTo(g, m, n) && 0 < n < |g| <= MAX_NR_TYPES + 1 && 0 < c < |g| && IsPrimKind(g[n].info.kind)
        && IsPrimKind(g[c].info.kind)
    requires Target(g, m, c) && FwdLike(g[c]) && !FwdLike(g[n]) && EnumClash(g, c, n)
    ensures PrimsUpTo(g, m[c := n], n) && TakesOver(g, m, m[c := n], n) && !Unresolved(g, m[c := n])
  {
    assert m[c := n][c] == n;
  }

  lemma PrimsAdopt(g: Graph, exact: bool, m: IdMap, i: Id)
    requires PrimsDone(g, exact, m) && 0 < i < |g| <= MAX_NR_TYPES + 1 && !Mapped(m[i]) && IsComposite(g[i].info.kind)
    ensures PrimsDone(g, exact, m[i := i])
  {
    if !Unresolved(g, m) {
      var x :| 0 <= x < |g| && FwdLike(g[x]) && m[x] < |g| && !FwdLike(g[m[x]]);
      assert m[i := i][x] == m[x];
    }
  }

  lemma PrimsAll(g: Graph, exact: bool, m: IdMap, entries: multiset<File>)
    requires PrimsUpTo(g, m, |g|) && (!exact ==> EnumsUpTo(g, m, entries, |g|))
    ensures PrimsDone(g, exact, m)
    ensures !exact && !Unresolved(g, m) ==> HasEnumClash(g, |g|)
  {
  }

  lemma PrimsSkip(g: Graph, m: IdMap, i: Id)
    requires PrimsUpTo(g, m, i) && 0 < i < |g| && !IsPrimKind(g[i].info.kind) && g[i].info.kind != VOID
    ensures PrimsUpTo(g, m, i + 1)
  {
  }

  lemma UnsetShrinks(i: Id, g: Graph, m: IdMap, g': Graph, m': IdMap)
    requires |g| == |m| && KeptBut(i, g, m, g', m')
    ensures Unset(m') <= Unset(m)
  {
  }

  class Dedup {
    ghost const input: Graph
    /** `opts.dont_resolve_fwds` */
    const exact: bool
    const types: array<Desc>
    var nrTypes: nat
    const idMap: array<nat>
    const hypotMap: array<nat>
    var hypotList: seq<nat>
    const table: HashMaps.HashMap<nat, nat, Id>
    /** The reference types the last pass is done with, in the order it finished them. */
    ghost var finished: seq<Id>
    /** `exact` until the structs are done; from then on also if nothing was resolved by then. */
    ghost var strong: bool

    /** The arrays fit the input, and the map is sound. */
    ghost predicate Sized()
      reads this, idMap
    {
      && WfGraph(input)
      && types.Length == idMap.Length == hypotMap.Length == |input|
      && idMap != hypotMap
      && MapOk(input, strong, idMap[..])
    }

    ghost predicate HypotOk()
      reads this, hypotMap
    {
      && WfHypot(input, hypotMap[..])
      && (forall c {:trigger hypotMap[c]} :: 0 <= c < hypotMap.Length ==>
          (hypotMap[c] != UNPROCESSED <==> c in hypotList))
      && forall k :: 0 <= k < |hypotList| ==> hypotList[k] < hypotMap.Length
    }

    /** Before the reference pass: descriptors are still those of the input. */
    ghost predicate Pristine()
      reads this, idMap, types
    {
      Sized() && types[..] == input && nrTypes == |input| - 1 && strong == exact && ExactIfUnresolved()
    }

    /** The map is one that could have come about without forward resolution, if none happened. */
    ghost predicate ExactIfUnresolved()
      requires WfGraph(input)
      reads this, idMap
    {
      Unresolved(input, idMap[..]) ==> MapOk(input, true, idMap[..])
    }

    ghost predicate TableValid()
      reads idMap, types, table
    {
      && table.Valid()
      && (forall k :: table.ident(k) == k)
      && types.Length == idMap.Length
      && TableOk(types[..], idMap[..], table.Entries())
    }

    /** `btf_dedup_new` */
    constructor (btf: seq<Desc>, dontResolveFwds: bool, tableSize: nat)
      requires WfGraph(btf)
      ensures input == btf && this.exact == dontResolveFwds
      ensures Pristine() && HypotOk() && TableValid() && hypotList == [] && finished == []
      ensures fresh(types) && fresh(idMap) && fresh(hypotMap) && fresh(table)
      ensures IsInitial(btf, idMap[..])
    {
      hide WellFormed, Refs, Signature, Same, TableOk, MapOk, Unresolved;
      input, exact, nrTypes, hypotList, finished, strong := btf, dontResolveFwds, |btf| - 1, [], [], dontResolveFwds;
      types := new Desc[|btf|](i requires 0 <= i < |btf| => btf[i]);
      idMap := new nat[|btf|](i requires 0 <= i < |btf| =>
        if i == 0 || btf[i].info.kind == VAR || btf[i].info.kind == DATASEC then i else UNPROCESSED);
      hypotMap := new nat[|btf|](_ => UNPROCESSED);
      table := new HashMaps.HashMap(Identity, if tableSize == 1 then Collide else Identity);
      new;
      assert types[..] == input;
      InitialMap(input, exact, idMap[..]);
      InitialMap(input, true, idMap[..]);
    }

    // -------------------------------------------------------------- resolution

    /** `resolve_type_id` */
    method ResolveTypeId(typeId: Id) returns (id: Id)
      requires Sized() && typeId < |input|
      ensures id == Resolve(input, idMap[..], typeId)
    {
      id := typeId;
      while Mapped(idMap[id]) && idMap[id] != id
        invariant id < |input| && Resolve(input, idMap[..], id) == Resolve(input, idMap[..], typeId)
        decreases Level(input, idMap[..], id)
      {
        LevelDrops(input, idMap[..], id);
        id := idMap[id];
      }
    }

    /** `resolve_fwd_id` */
    method ResolveFwdId(typeId: Id) returns (id: Id)
      requires Pristine() && typeId < |input|
      ensures id == ResolveFwd(input, idMap[..], typeId)
    {
      hide Resolve;
      if types[typeId].info.kind != FWD {
        return typeId;
      }
      id := ResolveTypeId(typeId);
      if types[id].info.kind != FWD {
        return id;
      }
      return typeId;
    }

    // -------------------------------------------------------------- graph equivalence

    /** `btf_dedup_hypot_map_add` */
    method HypotMapAdd(fromId: Id, toId: Id)
      requires HypotOk() && fromId < |input| && toId < |input| <= MAX_NR_TYPES + 1
      modifies hypotMap, this`hypotList
      ensures HypotOk() && hypotMap[..] == old(hypotMap[..])[fromId := toId]
    {
      hypotList := hypotList + [fromId];
      hypotMap[fromId] := toId;
    }

    /** `btf_dedup_clear_hypot_map` */
    method ClearHypotMap()
      requires HypotOk()
      modifies hypotMap, this`hypotList
      ensures HypotOk() && hypotList == []
      ensures forall c :: 0 <= c < hypotMap.Length ==> hypotMap[c] == UNPROCESSED
    {
      for i := 0 to |hypotList|
        invariant hypotList == old(hypotList) && forall k :: 0 <= k < |hypotList| ==> hypotList[k] < hypotMap.Length
        invariant forall c :: 0 <= c < hypotMap.Length ==> hypotMap[c] == old(hypotMap[c]) || hypotMap[c] == UNPROCESSED
        invariant forall k :: 0 <= k < i ==> hypotMap[hypotList[k]] == UNPROCESSED
      {
        hypotMap[hypotList[i]] := UNPROCESSED;
      }
      hypotList := [];
    }

    /** The comparison of two descriptors inside `btf_dedup_is_equiv`. */
    method CheckHeads(cand: Desc, canon: Desc) returns (v: Verdict)
      requires WellFormed(cand) && WellFormed(canon)
      ensures v == HeadVerdict(exact, cand, canon)
    {
      var candKind, canonKind := cand.info.kind, canon.info.kind;
      if cand.name != canon.name {
        return Mismatch;
      }
      if !exact && (candKind == FWD || canonKind == FWD) && candKind != canonKind {
        var realKind, fwdKind;
        if candKind == FWD {
          realKind, fwdKind := canonKind, FwdKind(cand);
        } else {
          realKind, fwdKind := candKind, FwdKind(canon);
        }
        return When(fwdKind == realKind, Leaf);
      }
      if candKind != canonKind {
        return Mismatch;
      }
      var eq;
      match candKind
      case INT => return When(EqualInt(cand, canon), Leaf);
      case ENUM =>
        if exact {
          eq := EqualEnum(cand, canon);
        } else {
          eq := CompatEnum(cand, canon);
        }
        return When(eq, Leaf);
      case FWD => return When(EqualCommon(cand, canon), Leaf);
      case ARRAY => return When(CompatArray(cand, canon), Descend);
      case STRUCT | UNION =>
        eq := ShallowEqualStruct(cand, canon);
        return When(eq, Descend);
      case FUNC_PROTO =>
        eq := CompatFnProto(cand, canon);
        return When(eq, Descend);
      case VOID | VAR | DATASEC => return Invalid;
      case _ => return When(cand.info == canon.info, Descend);
    }

    /** `btf_dedup_is_equiv`. A result of 1 means that the pair is settled in the hypothetical
        map and that whatever was newly recorded has its obligations met there. Conversely, if
        some closed map `w` settles the pair and contains what is recorded, the result is 1.
        The error is reserved for malformed input. */
    method IsEquiv(candId: Id, canonId0: Id, ghost w: Hypot) returns (eq: int)
      requires Pristine() && HypotOk() && candId < |input| && canonId0 < |input|
      modifies hypotMap, this`hypotList
      ensures HypotOk() && Extends(old(hypotMap[..]), hypotMap[..])
      ensures eq == 1 || eq == 0 || eq == -EINVAL
      ensures eq == 1 ==> PairOk(input, idMap[..], hypotMap[..], candId, canonId0)
      ensures eq == 1 ==> NewOk(input, exact, idMap[..], old(hypotMap[..]), hypotMap[..])
      ensures
        Witness(input, exact, idMap[..], old(hypotMap[..]), w) && PairOk(input, idMap[..], w, candId, canonId0) ==>
          eq == 1 && Extends(hypotMap[..], w)
      ensures eq == -EINVAL ==> Malformed(input) || IsVariable(input[candId].info.kind)
      decreases Unset(hypotMap[..]), 1
    {
      hide HeadVerdict, Resolve, ResolveFwd, WfMap, Same, WellFormed, Refs, Malformed, IsVariable;
      ghost var g, m, h0 := input, idMap[..], hypotMap[..];
      var candRoot := ResolveTypeId(candId);
      var canonRoot := ResolveTypeId(canonId0);
      if candRoot == canonRoot {
        return 1;
      }
      var canonId := ResolveFwdId(canonId0);
      var hypotTypeId := hypotMap[canonId];
      if hypotTypeId <= MAX_NR_TYPES {
        return if hypotTypeId == candId then 1 else 0;
      }
      HypotMapAdd(canonId, candId);
      ghost var h1 := hypotMap[..];
      assert canonId in Unset(h0) && canonId !in Unset(h1);
      assert Witness(g, exact, m, h0, w) && PairOk(g, m, w, candId, canonId0) ==>
          Extends(h1, w) && EntryOk(g, exact, m, w, canonId);
      VoidsResolveAlike(g, m, candId, canonId0);
      eq := ComparePair(candId, canonId, w);
      if eq == 1 {
        NewOkOneMore(g, exact, m, h0, h1, hypotMap[..], canonId);
      }
    }

    /** The comparison of a pair that was just recorded: the descriptors, then the children. */
    method ComparePair(candId: Id, canonId: Id, ghost w: Hypot) returns (eq: int)
      requires Pristine() && HypotOk() && candId < |input| && canonId < |input| && hypotMap[canonId] == candId
      requires HasVoid(input) || candId != 0 || canonId != 0
      modifies hypotMap, this`hypotList
      ensures HypotOk() && Extends(old(hypotMap[..]), hypotMap[..])
      ensures eq == 1 || eq == 0 || eq == -EINVAL
      ensures eq == 1 ==> EntryOk(input, exact, idMap[..], hypotMap[..], canonId)
      ensures eq == 1 ==> NewOk(input, exact, idMap[..], old(hypotMap[..]), hypotMap[..])
      ensures Witness(input, exact, idMap[..], old(hypotMap[..]), w) && EntryOk(input, exact, idMap[..], w, canonId) ==>
                eq == 1 && Extends(hypotMap[..], w)
      ensures eq == -EINVAL ==> Malformed(input) || IsVariable(input[candId].info.kind)
      decreases Unset(hypotMap[..]), 3
    {
      hide HeadVerdict, Resolve, ResolveFwd, WfMap, Same, WellFormed, Refs, HasVoid, Malformed;
      ghost var g, m, h1 := input, idMap[..], hypotMap[..];
      var v := CheckHeads(types[candId], types[canonId]);
      match v
      case Mismatch => return 0;
      case Invalid =>
        InvalidReason(g, exact, candId, canonId);
        return -EINVAL;
      case Leaf => return 1;
      case Descend =>
        VerdictMeaning(exact, g[candId], g[canonId]);
        ProperChildren(g, exact, candId, canonId);
        eq := ChildrenEquiv(Refs(types[candId]), Refs(types[canonId]), w);
    }

    /** The loops of `btf_dedup_is_equiv` over the children of two matching descriptors. */
    method ChildrenEquiv(cands: seq<Id>, canons: seq<Id>, ghost w: Hypot) returns (eq: int)
      requires Pristine() && HypotOk() && |cands| == |canons|
      requires forall k {:trigger cands[k]} {:trigger canons[k]} :: 0 <= k < |cands| ==>
          cands[k] < |input| && canons[k] < |input|
      modifies hypotMap, this`hypotList
      ensures HypotOk() && Extends(old(hypotMap[..]), hypotMap[..])
      ensures eq == 1 || eq == 0 || eq == -EINVAL
      ensures eq == 1 ==> ChildrenOk(input, idMap[..], hypotMap[..], cands, canons)
      ensures eq == 1 ==> NewOk(input, exact, idMap[..], old(hypotMap[..]), hypotMap[..])
      ensures
        Witness(input, exact, idMap[..], old(hypotMap[..]), w) && ChildrenOk(input, idMap[..], w, cands, canons) ==>
          eq == 1 && Extends(hypotMap[..], w)
      ensures eq == -EINVAL ==>
          Malformed(input) || exists k :: 0 <= k < |cands| && IsVariable(input[cands[k]].info.kind)
      decreases Unset(hypotMap[..]), 2
    {
      hide EntryOk, PairOk, WfMap, Same, Refs, WellFormed, Closed;
      ghost var g, m, h0 := input, idMap[..], hypotMap[..];
      for k := 0 to |cands|
        invariant HypotOk() && Extends(h0, hypotMap[..]) && NewOk(g, exact, m, h0, hypotMap[..])
        invariant Unset(hypotMap[..]) <= Unset(h0)
        invariant forall j :: 0 <= j < k ==> PairOk(g, m, hypotMap[..], cands[j], canons[j])
        invariant Witness(g, exact, m, h0, w) && ChildrenOk(g, m, w, cands, canons) ==> Extends(hypotMap[..], w)
      {
        ghost var h1 := hypotMap[..];
        eq := IsEquiv(cands[k], canons[k], w);
        if eq <= 0 {
          return;
        }
        ghost var h2 := hypotMap[..];
        NewOkJoins(g, exact, m, h0, h1, h2);
        forall j | 0 <= j < k ensures PairOk(g, m, h2, cands[j], canons[j]) {
          PairOkMonotone(g, m, h1, h2, cands[j], canons[j]);
        }
      }
      return 1;
    }

    /** A fresh equivalence check of two struct graphs. It succeeds exactly when some closed
        hypothetical map settles the pair, and then leaves such a map behind. In terms of kinds
        and fields these are the maps all of whose pairs agree. */
    method CheckGraphs(candId: Id, canonId: Id) returns (eq: int)
      requires Pristine() && HypotOk() && candId < |input| && canonId < |input|
      modifies hypotMap, this`hypotList
      ensures HypotOk() && (eq == 1 || eq == 0 || eq == -EINVAL)
      ensures eq == 1 <==> Settles(input, exact, idMap[..], candId, canonId)
      ensures eq == 1 <==> exists h: Hypot ::
          Agreement(input, exact, idMap[..], h) && ChildAgrees(input, idMap[..], h, candId, canonId)
      ensures eq == 1 ==>
          Closed(input, exact, idMap[..], hypotMap[..])
          && PairOk(input, idMap[..], hypotMap[..], candId, canonId)
      ensures eq == -EINVAL ==> Malformed(input) || IsVariable(input[candId].info.kind)
    {
      hide WfMap, Same, WellFormed, Refs, PairOk, EntryOk;
      ClearHypotMap();
      ghost var w := hypotMap[..];
      if exists w :: Closed(input, exact, idMap[..], w) && PairOk(input, idMap[..], w, candId, canonId) {
        w :| Closed(input, exact, idMap[..], w) && PairOk(input, idMap[..], w, candId, canonId);
      }
      eq := IsEquiv(candId, canonId, w);
      SettlesExactly(input, exact, idMap[..], candId, canonId);
    }

    // -------------------------------------------------------------- merging

    /** Every recorded pair stands for the same type. */
    ghost predicate PairsSame(e: bool)
      requires WfGraph(input)
      reads this, hypotMap
    {
      && WfHypot(input, hypotMap[..])
      && forall c {:trigger hypotMap[c]} :: 0 <= c < hypotMap.Length && hypotMap[c] != UNPROCESSED ==>
          Same(input, e, hypotMap[c], c)
    }

    /** The state during a merge, which is plain if nothing was resolved before and no recorded
        pair is of a forward declaration and a definition. */
    ghost predicate Merging(plain: bool)
      reads this, idMap, types, hypotMap
    {
      && Sized() && types[..] == input && nrTypes == |input| - 1 && strong == exact
      && PairsSame(exact)
      && (plain ==> MapOk(input, true, idMap[..]) && PairsSame(true))
    }

    /** One round of the loop of `btf_dedup_merge_hypot_map`. */
    method MergePair(candTypeId: Id, ghost m0: IdMap, ghost plain: bool)
      requires Merging(plain) && candTypeId < |input| && hypotMap[candTypeId] != UNPROCESSED
      requires |m0| == |input| && Evolves(input, m0, idMap[..])
      modifies idMap
      ensures Merging(plain) && Evolves(input, m0, idMap[..])
      ensures idMap[..] == MergeRound(input, old(idMap[..]), hypotMap[candTypeId], candTypeId)
      ensures PairMerged(input, m0, idMap[..], hypotMap[candTypeId], candTypeId)
      ensures forall t: Id, c: Id {:trigger PairMerged(input, m0, idMap[..], t, c)} ::
                PairMerged(input, m0, old(idMap[..]), t, c) ==> PairMerged(input, m0, idMap[..], t, c)
    {
      hide WfMap, Same, WellFormed, Refs, Resolve, LinkOk, Evolves, Linkable, PairMerged;
      ghost var g, m := input, idMap[..];
      var targTypeId := hypotMap[candTypeId];
      var tId := ResolveTypeId(targTypeId);
      var cId := ResolveTypeId(candTypeId);
      var tKind, cKind := types[tId].info.kind, types[cId].info.kind;
      MergeFactsBoth(g, exact, plain, m, targTypeId, candTypeId);
      if tKind != FWD && cKind == FWD {
        MergeLinkBoth(g, exact, plain, m0, m, cId, tId);
        idMap[cId] := tId;
        assert idMap[..] == m[cId := tId];
      } else if tKind == FWD && cKind != FWD {
        MergeLinkBoth(g, exact, plain, m0, m, tId, cId);
        idMap[tId] := cId;
        assert idMap[..] == m[tId := cId];
      }
      if (tKind == STRUCT || tKind == UNION) && cKind != FWD && Mapped(idMap[cId]) && !Mapped(idMap[tId]) {
        MergeLinkBoth(g, exact, plain, m0, m, tId, cId);
        idMap[tId] := cId;
        assert idMap[..] == m[tId := cId];
      }
      RoundMerges(g, m0, m, idMap[..], targTypeId, candTypeId);
    }

    /** Every pair recorded in the first `n` places of the list is merged. */
    ghost predicate Merged(m0: IdMap, n: nat)
      reads this, idMap, hypotMap
    {
      && n <= |hypotList|
      && forall k {:trigger hypotList[k]} :: 0 <= k < n ==>
          hypotList[k] < hypotMap.Length && PairMerged(input, m0, idMap[..], hypotMap[hypotList[k]], hypotList[k])
    }

    /** `btf_dedup_merge_hypot_map` */
    method MergeHypotMap(ghost plain: bool)
      requires Merging(plain) && HypotOk()
      modifies idMap
      ensures Merging(plain) && HypotOk() && Evolves(input, old(idMap[..]), idMap[..])
      ensures Merged(old(idMap[..]), |hypotList|)
      ensures idMap[..] == MergeRounds(input, old(idMap[..]), hypotMap[..], hypotList)
    {
      hide WfMap, Same, WellFormed, Refs, LinkOk, MapOk, WfGraph, PairMerged, MergeRound, PairsSame;
      for i := 0 to |hypotList|
        invariant Merging(plain) && HypotOk() && Evolves(input, old(idMap[..]), idMap[..])
        invariant Merged(old(idMap[..]), i)
        invariant idMap[..] == MergeRounds(input, old(idMap[..]), hypotMap[..], hypotList[..i])
      {
        assert hypotList[i] in hypotList;
        assert hypotList[..i + 1] == hypotList[..i] + [hypotList[i]];
        MergePair(hypotList[i], old(idMap[..]), plain);
      }
      assert hypotList[..|hypotList|] == hypotList;
    }

    // -------------------------------------------------------------- structs and unions

    /** Mapping a struct to the canonical struct it was found equivalent to. */
    method AdoptCandidate(typeId: Id, candId: Id)
      requires Pristine() && HypotOk() && TableValid() && PrimsDone(input, exact, idMap[..])
      requires 0 < typeId < |input| && !Mapped(idMap[typeId]) && IsComposite(input[typeId].info.kind)
      requires candId < |input| && IsComposite(input[candId].info.kind) && idMap[candId] == candId
      requires Closed(input, exact, idMap[..], hypotMap[..]) && PairOk(input, idMap[..], hypotMap[..], typeId, candId)
      modifies idMap
      ensures Pristine() && HypotOk() && TableValid() && PrimsDone(input, exact, idMap[..])
      ensures Evolves(input, old(idMap[..]), idMap[..]) && idMap[typeId] == candId
      ensures Merged(old(idMap[..]), |hypotList|)
      ensures Adopts(input, exact, old(idMap[..]), typeId, candId, hypotMap[..], hypotList, idMap[..])
    {
      hide WfMap, Same, WellFormed, Refs, LinkOk, MapOk, WfGraph, Closed, PairOk, TableOk, Evolves, PrimsDone, HypotOk,
          PairMerged, PairsSame,
           Unresolved, PairsDefinitions, HashMaps.HashMap.Valid, HashMaps.HashMap.Entries, MergeRounds;
      ghost var g, m0, h := input, idMap[..], hypotMap[..];
      ghost var plain := Unresolved(g, m0) && PairsDefinitions(g, h);
      StartMerge(plain);
      AllListed();
      MapOkIsWf(g, exact, m0);
      MergeHypotMap(plain);
      ghost var m := idMap[..];
      AdoptFacts(m0, m, h, plain, typeId, candId, table.Entries());
      idMap[typeId] := candId;
      assert idMap[..] == m[typeId := candId];
      MergeEnds(m0, plain);
    }

    lemma AllListed()
      requires HypotOk()
      ensures Lists(hypotMap[..], hypotList)
    {
    }

    /** The recorded pairs stand for the same types, whether forward declarations are resolved or,
        in a plain merge, not. */
    lemma StartMerge(plain: bool)
      requires Pristine() && Closed(input, exact, idMap[..], hypotMap[..])
      requires plain == (Unresolved(input, idMap[..]) && PairsDefinitions(input, hypotMap[..]))
      ensures Merging(plain)
    {
      hide Same, Closed, WfMap, Unresolved, PairsDefinitions, Refs, WellFormed;
      PairsAgree(input, exact, idMap[..], hypotMap[..]);
      if plain {
        ClosedExactly(input, exact, idMap[..], hypotMap[..]);
        PairsAgree(input, true, idMap[..], hypotMap[..]);
      }
    }

    /** The map after the adoption. */
    lemma AdoptFacts(m0: IdMap, m: IdMap, h: Hypot, plain: bool, typeId: Id, candId: Id, entries: multiset<File>)
      requires WfGraph(input) && MapOk(input, exact, m0) && MapOk(input, exact, m)
          && (plain ==> MapOk(input, true, m0) && MapOk(input, true, m))
      requires Evolves(input, m0, m) && TableOk(input, m0, entries) && PrimsDone(input, exact, m0)
      requires 0 < typeId < |input| && !Mapped(m0[typeId]) && IsComposite(input[typeId].info.kind)
      requires candId < |input| && m0[candId] == candId && IsComposite(input[candId].info.kind)
      requires Closed(input, exact, m0, h) && PairOk(input, m0, h, typeId, candId)
          && (plain ==> PairsDefinitions(input, h))
      ensures var m' := m[typeId := candId];
              && MapOk(input, exact, m') && (plain ==> MapOk(input, true, m')) && Evolves(input, m0, m')
              && TableOk(input, m', entries) && PrimsDone(input, exact, m')
      ensures forall t: Id, c: Id {:trigger PairMerged(input, m0, m[typeId := candId], t, c)} ::
                PairMerged(input, m0, m, t, c) ==> PairMerged(input, m0, m[typeId := candId], t, c)
    {
      hide Same, Closed, LinkOk, Unresolved, PairsDefinitions, Refs, WellFormed, PairOk, Evolves, TableOk, PrimsDone,
          PairMerged;
      ClosedPairSame(input, exact, m0, h, typeId, candId);
      AdoptKeeps(input, exact, m0, m, typeId, candId, entries);
      if plain {
        ClosedExactly(input, exact, m0, h);
        ClosedPairSame(input, true, m0, h, typeId, candId);
        AdoptKeeps(input, true, m0, m, typeId, candId, entries);
      }
      PrimsEvolve(input, exact, m0, m[typeId := candId]);
      MergedStays(input, m0, m, typeId, candId);
    }

    /** A merge that was not plain has resolved a forward declaration. */
    lemma MergeEnds(m0: IdMap, plain: bool)
      requires Sized() && HypotOk() && WfMap(input, m0) && Closed(input, exact, m0, hypotMap[..])
          && PrimsDone(input, exact, idMap[..])
      requires Evolves(input, m0, idMap[..]) && Merged(m0, |hypotList|)
      requires plain == (Unresolved(input, m0) && PairsDefinitions(input, hypotMap[..]))
      requires plain ==> MapOk(input, true, idMap[..])
      ensures ExactIfUnresolved()
    {
      hide Same, Refs, WellFormed, Evolves, Unresolved, Closed, PrimsDone, EnumsCompatible;
      var g, m, h := input, idMap[..], hypotMap[..];
      if Unresolved(g, m) {
        EvolvesResolved(g, m0, m);
        forall c | 0 <= c < |h| && h[c] != UNPROCESSED
          ensures c < |g| && h[c] < |g| && FwdLike(g[h[c]]) == FwdLike(g[c])
        {
          assert c in hypotList;
          PairDefinition(g, exact, m0, m, h, c);
        }
      }
    }

    /** `btf_dedup_struct_type` */
    method DedupStructType(typeId: Id) returns (err: int)
      requires Pristine() && HypotOk() && TableValid() && PrimsDone(input, exact, idMap[..]) && 0 < typeId < |input|
      modifies idMap, hypotMap, table, this`hypotList
      ensures Pristine() && HypotOk() && PrimsDone(input, exact, idMap[..])
      ensures err == 0 || (err == -EINVAL && Malformed(input))
      ensures err == 0 ==> TableValid()
      ensures forall i {:trigger idMap[i]} :: 0 <= i < |input| && Mapped(old(idMap[i])) ==> Mapped(idMap[i])
      ensures err == 0 ==> Mapped(idMap[typeId]) || IsRefKind(input[typeId].info.kind)
      ensures err == 0 && !Mapped(old(idMap[typeId])) && IsComposite(input[typeId].info.kind) ==>
                StructSettled(input, exact, old(idMap[..]), old(table.Entries()), typeId, idMap[typeId])
      ensures err == 0 ==> StructStep(input, exact, old(idMap[..]), typeId, idMap[..])
    {
      hide WfMap, Same, MapOk, WellFormed, Refs, Signature, HypotOk, TableValid, IsValueKind, StructSettled, Adopts,
          NoDuplicates, ExactIfUnresolved;
      MapOkIsWf(input, exact, idMap[..]);
      if idMap[typeId] <= MAX_NR_TYPES {
        return 0;
      }
      var t := types[typeId];
      if t.info.kind != STRUCT && t.info.kind != UNION {
        assert PrimState(t.info.kind, typeId, idMap[..][typeId], true);
        return 0;
      }
      err := DedupStruct(typeId);
    }

    method DedupStruct(typeId: Id) returns (err: int)
      requires Pristine() && HypotOk() && TableValid() && PrimsDone(input, exact, idMap[..])
      requires 0 < typeId < |input| && !Mapped(idMap[typeId]) && IsComposite(input[typeId].info.kind)
      modifies idMap, hypotMap, table, this`hypotList
      ensures Pristine() && HypotOk() && PrimsDone(input, exact, idMap[..])
      ensures err == 0 || (err == -EINVAL && Malformed(input))
      ensures err == 0 ==> TableValid() && Mapped(idMap[typeId])
      ensures forall i {:trigger idMap[i]} :: 0 <= i < |input| && Mapped(old(idMap[i])) ==> Mapped(idMap[i])
      ensures err == 0 ==> StructSettled(input, exact, old(idMap[..]), old(table.Entries()), typeId, idMap[typeId])
      ensures err == 0 ==> StructStep(input, exact, old(idMap[..]), typeId, idMap[..])
    {
      hide WfMap, Same, MapOk, WellFormed, Refs, Signature, HypotOk, TableOk, Settles, Duplicates, PrimsDone, Malformed,
          StructStep, ExactIfUnresolved, NoneEqual;
      assert WellFormed(types[typeId]);
      var h := HashStruct(types[typeId]);
      var cands := Candidates(h);
      var eq := TryCandidates(typeId, cands);
      if eq == 0 {
        err := FileStruct(typeId, h, cands);
      } else if eq == 1 {
        return 0;
      } else {
        return eq;
      }
    }

    /** `d->map[type_id] = type_id`, for a struct without duplicates. */
    method FileStruct(typeId: Id, h: nat, ghost cands: seq<File>) returns (err: int)
      requires Pristine() && HypotOk() && TableValid() && PrimsDone(input, exact, idMap[..])
      requires 0 < typeId < |input| && !Mapped(idMap[typeId]) && IsComposite(input[typeId].info.kind)
      requires WellFormed(input[typeId]) && h == Signature(input[typeId])
      requires ListsCandidates(h, cands) && NoDuplicateAmong(typeId, idMap[..], cands, |cands|)
      modifies idMap, table
      ensures Pristine() && HypotOk() && PrimsDone(input, exact, idMap[..])
      ensures err == 0 && TableValid() && idMap[..] == old(idMap[..])[typeId := typeId]
      ensures StructSettled(input, exact, old(idMap[..]), old(table.Entries()), typeId, typeId)
      ensures StructStep(input, exact, old(idMap[..]), typeId, idMap[..])
    {
      hide WfMap, Same, MapOk, WellFormed, Refs, Signature, HypotOk, TableOk, Settles, Duplicates, PrimsDone, Malformed,
          StructStep, ExactIfUnresolved, NoneEqual,
           StructSettled, NoDuplicateAmong;
      NoTwins(typeId, h, cands);
      assert |input| <= MAX_NR_TYPES + 1 by { GraphSize(input); }
      PrimsAdopt(input, exact, idMap[..], typeId);
      CanonicalSettled(typeId, idMap[..], table.Entries(), cands);
      err := AddCanonical(typeId, h);
    }

    lemma CanonicalSettled(typeId: Id, m: IdMap, entries: multiset<File>, cands: seq<File>)
      requires NoDuplicateAmong(typeId, m, cands, |cands|) && !Mapped(m[typeId]) && IsComposite(input[typeId].info.kind)
      requires forall e: File :: multiset(cands)[e] == if e.key == Signature(input[typeId]) then entries[e] else 0
      requires TableOk(input, m, entries) && MapOk(input, exact, m)
      ensures StructSettled(input, exact, m, entries, typeId, typeId)
          && StructStep(input, exact, m, typeId, m[typeId := typeId])
    {
      hide WfMap, WellFormed, Signature, Duplicates, TableOk;
      forall e | e in entries && e.key == Signature(input[typeId])
        ensures !Duplicates(input, exact, m, typeId, e.value)
      {
        assert multiset(cands)[e] > 0;
        assert e in cands;
      }
      NothingOverlooked(input, exact, m, entries, typeId);
    }

    /** The loop over the candidates: a result of 1 means that one was adopted. */
    method TryCandidates(typeId: Id, cands: seq<File>) returns (eq: int)
      requires Pristine() && HypotOk() && TableValid() && PrimsDone(input, exact, idMap[..])
      requires 0 < typeId < |input| && !Mapped(idMap[typeId]) && IsComposite(input[typeId].info.kind)
      requires forall e :: multiset(cands)[e] <= table.Entries()[e]
      modifies idMap, hypotMap, this`hypotList
      ensures Pristine() && HypotOk() && TableValid() && PrimsDone(input, exact, idMap[..])
      ensures eq == 0 || eq == 1 || eq == -EINVAL
      ensures eq != 1 ==> idMap[..] == old(idMap[..])
      ensures eq == -EINVAL ==> Malformed(input)
      ensures eq == 0 ==> NoDuplicateAmong(typeId, old(idMap[..]), cands, |cands|)
      ensures eq == 1 ==> Evolves(input, old(idMap[..]), idMap[..])
      ensures eq == 1 ==> exists k :: 0 <= k < |cands| && Adopted(typeId, old(idMap[..]), cands[k].value)
      ensures eq == 1 ==> StructStep(input, exact, old(idMap[..]), typeId, idMap[..])
    {
      hide Pristine, HypotOk, TableValid, PrimsDone, WfGraph, WfMap, MapOk, Evolves, IsComposite, Duplicates,
          HashMaps.HashMap.Entries, StructStep;
      ghost var m0 := idMap[..];
      Sizes();
      NoCandidatesYet(typeId, cands);
      for k := 0 to |cands|
        invariant Pristine() && HypotOk() && TableValid() && PrimsDone(input, exact, idMap[..]) && idMap[..] == m0
        invariant idMap.Length == |input| && NoDuplicateAmong(typeId, m0, cands, k)
      {
        FiledCandidate(cands, k);
        eq := TryCandidate(typeId, cands[k]);
        if eq != 0 {
          return;
        }
      }
      return 0;
    }

    lemma NoCandidatesYet(typeId: Id, cands: seq<File>)
      requires Pristine() && typeId < |input|
      ensures NoDuplicateAmong(typeId, idMap[..], cands, 0)
    {
      hide Same, LinkOk;
    }

    /** The type was mapped to this duplicate of it. */
    ghost predicate Adopted(typeId: Id, m: IdMap, candId: Id)
      reads this, idMap
    {
      && WfGraph(input) && WfMap(input, m) && typeId < |input| == idMap.Length
      && candId == idMap[typeId] && Mapped(candId)
      && Duplicates(input, exact, m, typeId, candId)
    }

    method TryCandidate(typeId: Id, cand: File) returns (eq: int)
      requires Pristine() && HypotOk() && TableValid() && PrimsDone(input, exact, idMap[..])
      requires 0 < typeId < |input| && !Mapped(idMap[typeId]) && IsComposite(input[typeId].info.kind)
      requires Filed(types[..], idMap[..], cand)
      modifies idMap, hypotMap, this`hypotList
      ensures Pristine() && HypotOk() && TableValid() && PrimsDone(input, exact, idMap[..])
      ensures eq == 0 || eq == 1 || eq == -EINVAL
      ensures eq != 1 ==> idMap[..] == old(idMap[..])
      ensures eq == -EINVAL ==> Malformed(input)
      ensures eq == 0 ==> !Duplicates(input, exact, old(idMap[..]), typeId, cand.value)
      ensures eq == 1 ==> Evolves(input, old(idMap[..]), idMap[..]) && Adopted(typeId, old(idMap[..]), cand.value)
      ensures eq == 1 ==> StructStep(input, exact, old(idMap[..]), typeId, idMap[..])
    {
      hide Adopts, StructStep, WfMap, Same, MapOk, WellFormed, Refs, Signature, TableOk, HypotOk, WfHypot, Closed,
          PairOk, Evolves, LinkOk, Settles;
      var candId := cand.value;
      assert WellFormed(types[typeId]) && WellFormed(types[candId]);
      MapOkIsWf(input, exact, idMap[..]);
      var shallow := ShallowEqualStruct(types[typeId], types[candId]);
      if !shallow {
        return 0;
      }
      ghost var m0 := idMap[..];
      eq := CheckGraphs(typeId, candId);
      if eq == 1 {
        AdoptCandidate(typeId, candId);
        AdoptStep(input, exact, m0, typeId, candId, hypotMap[..], hypotList, idMap[..]);
      }
    }

    /** None of the first `k` candidates is a duplicate. */
    ghost predicate NoDuplicateAmong(typeId: Id, m: IdMap, cands: seq<File>, k: nat)
    {
      && WfGraph(input) && WfMap(input, m) && typeId < |input| && k <= |cands|
      && forall j {:trigger cands[j]} :: 0 <= j < k ==> !Duplicates(input, exact, m, typeId, cands[j].value)
    }

    /** A struct without duplicates among the candidates has no twin in the table. */
    lemma NoTwins(typeId: Id, h: nat, cands: seq<File>)
      requires Pristine() && TableValid() && typeId < |input| && IsComposite(input[typeId].info.kind)
          && h == Signature(input[typeId])
      requires ListsCandidates(h, cands) && NoDuplicateAmong(typeId, idMap[..], cands, |cands|)
      ensures NoneEqual(input, typeId)
    {
      hide TableOk, Signature, WellFormed, MapOk, NoneEqual, Duplicates;
      assert WellFormed(input[typeId]);
      AllFiled(h, cands);
      MapOkIsWf(input, exact, idMap[..]);
      forall j | 0 <= j < |cands| ensures cands[j].value < |input| && input[cands[j].value] != input[typeId] {
        assert Filed(types[..], idMap[..], cands[j]);
        if input[cands[j].value] == input[typeId] {
          TwinsSettle(input, exact, idMap[..], typeId, cands[j].value);
        }
      }
      NoEqualEntry(typeId, h, cands);
    }

    /** `for_each_dedup_cand`: the ids filed under a signature. */
    method Candidates(h: nat) returns (cands: seq<File>)
      requires TableValid()
      ensures ListsCandidates(h, cands)
    {
      cands := table.KeyEntries(h);
    }

    /** Candidates come from the table. */
    lemma FiledCandidate(cands: seq<File>, k: nat)
      requires TableValid() && k < |cands|
      requires multiset(cands)[cands[k]] <= table.Entries()[cands[k]]
      ensures Filed(types[..], idMap[..], cands[k])
    {
      hide WellFormed, Signature, Filed;
      assert cands[k] in multiset(cands);
      assert cands[k] in table.Entries();
    }

    /** No candidate matched: the type becomes canonical and is filed (`btf_dedup_table_add`). */
    method AddCanonical(typeId: Id, h: nat) returns (err: int)
      requires Pristine() && TableValid() && 0 < typeId < |input| && !Mapped(idMap[typeId])
          && h == Signature(input[typeId])
      requires NoneEqual(input, typeId)
      modifies idMap, table
      ensures Pristine() && idMap[..] == old(idMap[..])[typeId := typeId]
      ensures err == 0
      ensures TableValid() && table.Entries() == old(table.Entries()) + multiset{HashMaps.Entry(h, typeId)}
    {
      hide WfMap, Same, Refs, LinkOk, Signature;
      ghost var m, entries := idMap[..], table.Entries();
      assert WellFormed(input[typeId]);
      EqualDescsSame(input, exact, typeId, typeId);
      MapFirst(input, exact, m, typeId, typeId);
      SettleExactly(input, exact, m, typeId, typeId);
      TableAdds(input, m, typeId, entries);
      idMap[typeId] := typeId;
      assert idMap[..] == m[typeId := typeId];
      err := TableAdd(h, typeId);
    }

    /** `btf_dedup_table_add` */
    method TableAdd(h: nat, typeId: Id) returns (err: int)
      requires table.Valid() && |table.Entries()| <= MAX_NR_TYPES
      modifies table
      ensures table.Valid() && err == 0
      ensures table.Entries() == old(table.Entries()) + multiset{HashMaps.Entry(h, typeId)}
    {
      hide HashMaps.HashMap.Entries;
      var found;
      err, found := table.Insert(h, typeId, HashMaps.APPEND);
    }

    method DedupStructTypes() returns (err: int)
      requires Pristine() && HypotOk() && TableValid() && PrimResult(input, exact, idMap[..])
      modifies idMap, hypotMap, table, this`hypotList
      ensures Pristine() && HypotOk() && PrimsDone(input, exact, idMap[..])
      ensures err == 0 || (err == -EINVAL && Malformed(input))
      ensures err == 0 ==> TableValid() && StructsDone(input, idMap[..]) && StructPass(input, exact, idMap[..])
      ensures err == 0 && !exact ==> InputDecides(input, Unresolved(input, idMap[..]))
    {
      hide WfMap, Same, MapOk, WellFormed, Refs, Signature, HypotOk, TableOk, WfGraph, Pristine, TableValid, PrimsDone,
          StructStep, PrimResult, InputDecides, Unresolved,
           StructTrace, StructPass, StructSettled, StructsDone, IsComposite, IsRefKind, HashMaps.HashMap.Entries;
      ghost var ms := StartTrace();
      for i := 1 to nrTypes + 1
        invariant Pristine() && HypotOk() && TableValid() && PrimsDone(input, exact, idMap[..])
        invariant nrTypes == |input| - 1 && idMap.Length == |input|
        invariant |ms| == i && ms[i - 1] == idMap[..] && StructTrace(input, exact, ms)
        invariant forall k {:trigger idMap[k]} :: 0 < k < i ==> Mapped(idMap[k]) || IsRefKind(input[k].info.kind)
        modifies idMap, hypotMap, table, this`hypotList
      {
        err := DedupStructType(i);
        if err != 0 {
          return;
        }
        TraceNext(input, exact, ms, idMap[..]);
        ms := ms + [idMap[..]];
      }
      StructsAllDone();
      PassTraced(ms);
      if !exact {
        InputDecided();
      }
      return 0;
    }

    lemma StartTrace() returns (ms: seq<IdMap>)
      requires Pristine() && PrimResult(input, exact, idMap[..])
      ensures PrimsDone(input, exact, idMap[..]) && idMap.Length == types.Length == |input| && nrTypes == |input| - 1
      ensures ms == [idMap[..]] && StructTrace(input, exact, ms)
    {
      Sizes();
      ms := [idMap[..]];
    }

    lemma InputDecided()
      requires Pristine() && PrimsDone(input, exact, idMap[..]) && StructPass(input, exact, idMap[..]) && !exact
      ensures InputDecides(input, Unresolved(input, idMap[..]))
    {
      hide InputDecides, StructPass, PrimsDone, Same;
      PassDecided(input, idMap[..]);
    }

    lemma PassTraced(ms: seq<IdMap>)
      requires StructTrace(input, exact, ms) && |ms| == |input| && ms[|ms| - 1] == idMap[..]
      ensures StructPass(input, exact, idMap[..])
    {
    }

    lemma StructsAllDone()
      requires Pristine() && PrimsDone(input, exact, idMap[..])
      requires idMap.Length == |input| && forall k {:trigger idMap[k]} :: 0 < k < |input| ==>
          Mapped(idMap[k]) || IsRefKind(input[k].info.kind)
      ensures StructsDone(input, idMap[..])
    {
      VoidMapped();
    }

    lemma Sizes()
      requires Pristine()
      ensures idMap.Length == types.Length == |input| && nrTypes == |input| - 1
    {
    }

    lemma VoidMapped()
      requires Pristine()
      ensures idMap.Length > 0 && Mapped(idMap[0])
    {
    }

    // -------------------------------------------------------------- primitive types

    /** No identical descriptor is filed. */
    ghost predicate NoneEqual(g: Graph, i: Id)
      requires i < |g|
      reads table
    {
      forall e :: e in table.Entries() ==> e.value < |g| && g[e.value] != g[i]
    }

    /** The search loop shared by the passes: the position of the first identical descriptor. */
    method FirstEqual(t: Desc, cands: seq<File>) returns (k: nat)
      requires WellFormed(t) && IsValueKind(t.info.kind)
      requires forall j {:trigger cands[j]} :: 0 <= j < |cands| ==>
          cands[j].value < types.Length && WellFormed(types[cands[j].value])
      ensures k <= |cands|
      ensures k < |cands| ==> types[cands[k].value] == t
      ensures forall j {:trigger cands[j]} :: 0 <= j < k ==> types[cands[j].value] != t
    {
      k := 0;
      while k < |cands|
        invariant k <= |cands|
        invariant forall j {:trigger cands[j]} :: 0 <= j < k ==> types[cands[j].value] != t
      {
        var eq := EqualValue(t, types[cands[k].value]);
        if eq {
          return;
        }
        k := k + 1;
      }
    }

    /** All candidates come from the table. */
    lemma AllFiled(h: nat, cands: seq<File>)
      requires TableValid() && ListsCandidates(h, cands)
      ensures forall j {:trigger cands[j]} :: 0 <= j < |cands| ==> Filed(types[..], idMap[..], cands[j])
    {
      hide WellFormed, Signature, Filed;
      forall j {:trigger cands[j]} | 0 <= j < |cands| ensures Filed(types[..], idMap[..], cands[j]) {
        FiledCandidate(cands, j);
      }
    }

    /** An identical descriptor from the table, or the type itself if there is none. */
    method FindCanonical(typeId: Id, h: nat) returns (newId: Id)
      requires TableValid() && typeId < types.Length <= MAX_NR_TYPES + 1 && WellFormed(types[typeId])
          && !Mapped(idMap[typeId])
      requires IsValueKind(types[typeId].info.kind) && h == Signature(types[typeId])
      ensures newId < types.Length && types[newId] == types[typeId]
      ensures newId == typeId <==> NoneEqual(types[..], typeId)
      ensures newId != typeId ==> Target(types[..], idMap[..], newId)
    {
      hide Signature, TableOk, HashMaps.HashMap.Entries, NoneEqual, WellFormed;
      var cands := Candidates(h);
      AllFiled(h, cands);
      var k := FirstEqual(types[typeId], cands);
      if k == |cands| {
        NoEqualEntry(typeId, h, cands);
        return typeId;
      }
      FoundEntry(typeId, h, cands, k);
      return cands[k].value;
    }

    lemma FoundEntry(typeId: Id, h: nat, cands: seq<File>, k: nat)
      requires typeId < types.Length && ListsCandidates(h, cands) && k < |cands|
      requires cands[k].value < types.Length && types[cands[k].value] == types[typeId]
      ensures !NoneEqual(types[..], typeId)
    {
      assert cands[k] in multiset(cands);
      assert cands[k] in table.Entries();
    }

    /** The per-key iteration missed no identical descriptor. */
    lemma NoEqualEntry(typeId: Id, h: nat, cands: seq<File>)
      requires TableValid() && typeId < types.Length && WellFormed(types[typeId]) && h == Signature(types[typeId])
      requires ListsCandidates(h, cands)
      requires forall j :: 0 <= j < |cands| ==>
          cands[j].value < types.Length && types[..][cands[j].value] != types[..][typeId]
      ensures NoneEqual(types[..], typeId)
    {
      hide WellFormed, Signature;
      forall e | e in table.Entries() ensures e.value < types.Length && types[..][e.value] != types[..][typeId] {
        assert Filed(types[..], idMap[..], e);
        assert multiset(cands)[e] > 0 ==> e in cands;
      }
    }

    /** With forward resolution, the enums below `n` are filed or resolved. */
    ghost predicate EnumsSoFar(n: nat)
      requires idMap.Length == |input|
      reads this, idMap, table
    {
      !exact ==> EnumsUpTo(input, idMap[..], table.Entries(), n)
    }

    /** `btf_dedup_prim_type` */
    method DedupPrimType(typeId: Id) returns (err: int)
      requires Pristine() && TableValid() && 0 < typeId < |input| && PrimsUpTo(input, idMap[..], typeId)
          && EnumsSoFar(typeId)
      modifies idMap, table
      ensures Pristine()
      ensures err == 0 || err == -EINVAL
      ensures err == -EINVAL <==> input[typeId].info.kind == VOID
      ensures err == 0 ==> TableValid() && PrimsUpTo(input, idMap[..], typeId + 1) && EnumsSoFar(typeId + 1)
    {
      hide ExactIfUnresolved, EnumsUpTo, EnumsSoFar, WfMap, Same, MapOk, WellFormed, Refs, Signature, TableOk, Evolves,
          LinkOk, PrimsUpTo;
      var t := types[typeId];
      match t.info.kind
      case CONST | VOLATILE | RESTRICT | PTR | TYPEDEF | ARRAY | STRUCT | UNION | FUNC | FUNC_PROTO | VAR | DATASEC =>
        PrimsSkip(input, idMap[..], typeId);
        EnumsSkip(typeId);
        return 0;
      case VOID =>
        return -EINVAL;
      case INT | ENUM | FWD =>
        err := DedupPrim(typeId);
    }

    /** A type of another kind is skipped. */
    lemma EnumsSkip(typeId: Id)
      requires Pristine() && typeId < |input| && EnumsSoFar(typeId) && input[typeId].info.kind != ENUM
          && !IsPrimKind(input[typeId].info.kind)
      ensures EnumsSoFar(typeId + 1)
    {
      hide ExactIfUnresolved, EnumsUpTo, Same, WellFormed, Refs, MapOk;
      if !exact {
        EnumsPass(input, idMap[..], table.Entries(), typeId, idMap[typeId], table.Entries());
        assert idMap[..][typeId := idMap[typeId]] == idMap[..];
      }
    }

    method DedupPrim(typeId: Id) returns (err: int)
      requires Pristine() && TableValid() && 0 < typeId < |input| && PrimsUpTo(input, idMap[..], typeId)
          && EnumsSoFar(typeId)
      requires IsPrimKind(input[typeId].info.kind)
      modifies idMap, table
      ensures Pristine()
      ensures err == 0
      ensures TableValid() && PrimsUpTo(input, idMap[..], typeId + 1) && EnumsSoFar(typeId + 1)
      ensures input[typeId].info.kind == ENUM ==> EnumSettled(typeId, old(table.Entries()))
      ensures input[typeId].info.kind != ENUM ==> idMap[typeId] < |input| && input[idMap[typeId]] == input[typeId]
      ensures input[typeId].info.kind != ENUM ==> (idMap[typeId] == typeId <==> old(NoneEqual(input, typeId)))
    {
      hide NoneEqual, WfMap, Same, MapOk, Refs, Signature, TableOk, Evolves, LinkOk, EnumSettled, ExactIfUnresolved,
          EnumsUpTo;
      assert WellFormed(types[typeId]) && !Mapped(idMap[typeId]);
      hide WellFormed, WfGraph, TableValid;
      ghost var m, entries := idMap[..], table.Entries();
      var h := HashValue(types[typeId]);
      if types[typeId].info.kind == ENUM {
        err := DedupEnum(typeId, h);
      } else {
        var newId := FindCanonical(typeId, h);
        EqualDescsSame(input, exact, typeId, newId);
        hide PrimsUpTo;
        PrimsAdvance(input, idMap[..], typeId, newId);
        err := Settle(typeId, newId, h);
        if !exact {
          EnumsPass(input, m, entries, typeId, newId, table.Entries());
        }
      }
    }

    /** With forward resolution, an enum that became canonical took over every compatible enum
        that was filed before. */
    ghost predicate EnumSettled(typeId: Id, entries: multiset<File>)
      reads this, idMap
    {
      && typeId < |input| && typeId < idMap.Length && WellFormed(input[typeId])
      && (idMap[typeId] == typeId && !exact ==>
            forall e: File :: e in entries && e.key == Signature(input[typeId]) ==>
                Taken(input, idMap[..], typeId, e.value))
    }

    method DedupEnum(typeId: Id, h: nat) returns (err: int)
      requires Pristine() && TableValid() && 0 < typeId < |input| && PrimsUpTo(input, idMap[..], typeId)
          && EnumsSoFar(typeId)
      requires input[typeId].info.kind == ENUM && WellFormed(input[typeId]) && h == Signature(input[typeId])
      modifies idMap, table
      ensures Pristine()
      ensures err == 0
      ensures TableValid() && PrimsUpTo(input, idMap[..], typeId + 1) && EnumsSoFar(typeId + 1)
      ensures EnumSettled(typeId, old(table.Entries()))
    {
      hide EnumsCompatible, WfMap, Same, MapOk, Refs, Signature, TableOk, Evolves, LinkOk, WellFormed, WfGraph,
          TableValid, PrimsUpTo,
           TakesOver, EnumFound, EnumsUpTo, ExactIfUnresolved;
      ghost var m, entries := idMap[..], table.Entries();
      EnumStart(typeId);
      var newId := ResolveEnum(typeId, h);
      ghost var m1 := idMap[..];
      PrimPending(typeId);
      PrimsAdvance(input, idMap[..], typeId, newId);
      TakenStays(input, idMap[..], typeId);
      assert WfMap(input, m1) by { MapOkIsWf(input, exact, m1); }
      err := Settle(typeId, newId, h);
      if !exact {
        EnumsNext(input, m, m1, entries, typeId, newId, table.Entries());
      }
    }

    lemma EnumStart(typeId: Id)
      requires Pristine() && TableValid() && PrimsUpTo(input, idMap[..], typeId) && typeId < |input|
          && IsPrimKind(input[typeId].info.kind)
      ensures WfMap(input, idMap[..]) && TableOk(input, idMap[..], table.Entries()) && !Mapped(idMap[..][typeId])
    {
      hide Same, WellFormed, LinkOk, TableOk, ExactIfUnresolved;
      assert idMap[..][typeId] == idMap[typeId];
    }

    lemma PrimPending(typeId: Id)
      requires Pristine() && PrimsUpTo(input, idMap[..], typeId) && typeId < |input|
          && IsPrimKind(input[typeId].info.kind)
      ensures idMap.Length == |input| <= MAX_NR_TYPES + 1 && !Mapped(idMap[typeId])
    {
      hide Same, WellFormed, LinkOk;
      assert idMap[..][typeId] == idMap[typeId];
    }

    /** `d->map[cand_id] = type_id`: a full enum takes over a forward enum. */
    method TakeOver(typeId: Id, candId: Id)
      requires Pristine() && TableValid() && 0 < typeId < |input| && PrimsUpTo(input, idMap[..], typeId)
          && input[typeId].info.kind == ENUM
      requires 0 < candId < |input| && !exact && input[candId].info.kind == ENUM && Target(input, idMap[..], candId)
      requires FwdLike(input[candId]) && !FwdLike(input[typeId]) && Same(input, false, candId, typeId)
      requires EnumClash(input, candId, typeId)
      modifies idMap
      ensures Pristine() && TableValid() && PrimsUpTo(input, idMap[..], typeId)
      ensures TakesOver(input, old(idMap[..]), idMap[..], typeId) && idMap[..] == old(idMap[..])[candId := typeId]
    {
      hide WfMap, Same, MapOk, Refs, Signature, TableOk, Evolves, LinkOk, WellFormed, WfGraph, PrimsUpTo, TakesOver,
          Unresolved, FwdLike, Target, EnumClash;
      ghost var m := idMap[..];
      EnumLink(input, m, candId, typeId, table.Entries());
      assert |input| <= MAX_NR_TYPES + 1 by { GraphSize(input); }
      PrimsTake(input, m, typeId, candId);
      idMap[candId] := typeId;
      assert idMap[..] == m[candId := typeId];
    }

    /** One round of the candidates loop for enums; true when the enum settles on the candidate. */
    method EnumCandidate(typeId: Id, candId: Id) returns (settled: bool)
      requires Pristine() && TableValid() && 0 < typeId < |input| && PrimsUpTo(input, idMap[..], typeId)
          && input[typeId].info.kind == ENUM
      requires 0 < candId < |input| && WellFormed(input[candId]) && Target(input, idMap[..], candId)
      modifies idMap
      ensures Pristine() && TableValid() && PrimsUpTo(input, idMap[..], typeId)
      ensures settled && FwdLike(input[typeId]) && !FwdLike(input[candId]) ==> EnumClash(input, typeId, candId)
      ensures if settled then CanSettle(input, exact, idMap[..], typeId, candId) && typeId != candId
          else input[candId] != input[typeId]
      ensures TakesOver(input, old(idMap[..]), idMap[..], typeId)
      ensures idMap[..] == old(idMap[..]) || idMap[..] == old(idMap[..])[candId := typeId]
      ensures !settled && !exact ==> Taken(input, idMap[..], typeId, candId)
    {
      hide TakesOver, ExactIfUnresolved, PrimsUpTo, WfMap, Same, MapOk, Refs, Signature, TableOk, Evolves, LinkOk,
          EnumsCompatible, EnumsEqual, EnumClash;
      assert WellFormed(types[typeId]);
      hide WellFormed, WfGraph;
      NothingTaken(typeId);
      PrimPending(typeId);
      var eq := EqualEnum(types[typeId], types[candId]);
      if eq {
        EqualEnums(input, exact, typeId, candId);
        return true;
      }
      EnumsDiffer(input[typeId], input[candId]);
      if !exact {
        var compat := CompatEnum(types[typeId], types[candId]);
        if compat {
          CompatibleEnums(input, typeId, candId);
          if IsEnumFwd(types[typeId]) {
            return true;
          }
          TakeOver(typeId, candId);
        }
      }
      return false;
    }

    /** The candidates loop for enums. With forward resolution, a full enum takes over the
        compatible forward enums it meets, and a forward enum settles on a full one. */
    method ResolveEnum(typeId: Id, h: nat) returns (newId: Id)
      requires Pristine() && TableValid() && 0 < typeId < |input| && PrimsUpTo(input, idMap[..], typeId)
      requires input[typeId].info.kind == ENUM && WellFormed(input[typeId]) && h == Signature(input[typeId])
      modifies idMap
      ensures Pristine() && TableValid() && PrimsUpTo(input, idMap[..], typeId) && newId < |input|
      ensures newId == typeId ==> NoneEqual(input, typeId)
      ensures newId != typeId ==>
          CanSettle(input, exact, idMap[..], typeId, newId) && EnumFound(input, table.Entries(), typeId, newId)
      ensures newId == typeId && !exact ==> AllTaken(typeId)
      ensures TakesOver(input, old(idMap[..]), idMap[..], typeId)
    {
      hide *;
      ghost var m0 := idMap[..];
      NothingTaken(typeId);
      var cands := Candidates(h);
      NoneYet(input, typeId, cands);
      NoneTaken(typeId, cands);
      var k := 0;
      while k < |cands|
        invariant k <= |cands|
        invariant Pristine() && TableValid() && PrimsUpTo(input, idMap[..], typeId)
        invariant ListsCandidates(h, cands)
        invariant Unequal(input, typeId, cands, k)
        invariant TakenUpTo(typeId, cands, k) && TakesOver(input, m0, idMap[..], typeId)
      {
        var settled := EnumRound(typeId, h, cands, k, m0);
        if settled {
          return cands[k].value;
        }
        k := k + 1;
      }
      UnequalToAll(typeId, h, cands);
      TakenFromAll(typeId, h, cands);
      return typeId;
    }

    lemma NothingTaken(typeId: Id)
      requires Pristine() && typeId < |input|
      ensures TakesOver(input, idMap[..], idMap[..], typeId)
    {
      hide Same, WellFormed, ExactIfUnresolved, Refs, LinkOk;
    }

    ghost predicate ListsCandidates(h: nat, cands: seq<File>)
      reads table
    {
      forall e: File :: multiset(cands)[e] == if e.key == h then table.Entries()[e] else 0
    }

    lemma UnequalToAll(typeId: Id, h: nat, cands: seq<File>)
      requires Pristine() && TableValid() && typeId < |input| && WellFormed(input[typeId])
          && h == Signature(input[typeId])
      requires ListsCandidates(h, cands) && Unequal(input, typeId, cands, |cands|)
      ensures NoneEqual(input, typeId)
    {
      hide TableOk, Signature, WellFormed, MapOk, WfGraph, NoneEqual;
      NoEqualEntry(typeId, h, cands);
    }

    /** With forward resolution, a canonical enum has taken over every compatible candidate. */
    ghost predicate TakenUpTo(typeId: Id, cands: seq<File>, k: nat)
      reads this, idMap
    {
      && k <= |cands|
      && (!exact ==> forall j {:trigger cands[j]} :: 0 <= j < k ==> Taken(input, idMap[..], typeId, cands[j].value))
    }

    lemma NoneTaken(typeId: Id, cands: seq<File>)
      ensures TakenUpTo(typeId, cands, 0)
    {
    }

    /** Every filed enum that is compatible with this one is mapped to it. */
    ghost predicate AllTaken(typeId: Id)
      requires typeId < |input| && WellFormed(input[typeId])
      reads this, idMap, table
    {
      forall e: File :: e in table.Entries() && e.key == Signature(input[typeId]) ==>
          Taken(input, idMap[..], typeId, e.value)
    }

    lemma TakenFromAll(typeId: Id, h: nat, cands: seq<File>)
      requires typeId < |input| && WellFormed(input[typeId]) && h == Signature(input[typeId])
      requires ListsCandidates(h, cands) && TakenUpTo(typeId, cands, |cands|)
      ensures !exact ==> AllTaken(typeId)
    {
      hide Signature, WellFormed, Taken;
      forall e: File | e in table.Entries() && e.key == h && !exact ensures Taken(input, idMap[..], typeId, e.value) {
        assert multiset(cands)[e] > 0;
        assert e in cands;
      }
    }

    method EnumRound(typeId: Id, h: nat, cands: seq<File>, k: nat, ghost m0: IdMap) returns (settled: bool)
      requires Pristine() && TableValid() && 0 < typeId < |input| && PrimsUpTo(input, idMap[..], typeId)
          && input[typeId].info.kind == ENUM
      requires ListsCandidates(h, cands) && k < |cands| && Unequal(input, typeId, cands, k)
          && TakenUpTo(typeId, cands, k)
      requires TakesOver(input, m0, idMap[..], typeId) && WellFormed(input[typeId]) && h == Signature(input[typeId])
      modifies idMap
      ensures Pristine() && TableValid() && PrimsUpTo(input, idMap[..], typeId) && ListsCandidates(h, cands)
      ensures settled ==>
          cands[k].value < |input| && cands[k].value != typeId
          && CanSettle(input, exact, idMap[..], typeId, cands[k].value)
      ensures settled ==> EnumFound(input, table.Entries(), typeId, cands[k].value)
      ensures TakesOver(input, m0, idMap[..], typeId)
      ensures !settled ==> Unequal(input, typeId, cands, k + 1) && TakenUpTo(typeId, cands, k + 1)
    {
      hide EnumsCompatible, TableOk, Signature, WellFormed, MapOk, WfGraph, WfMap, PrimsUpTo, Same, ExactIfUnresolved;
      FiledCandidate(cands, k);
      settled := EnumCandidate(typeId, cands[k].value);
      assert multiset(cands)[cands[k]] > 0;
      assert cands[k].key == h && cands[k] in table.Entries();
      assert cands[k] == HashMaps.Entry(h, cands[k].value);
    }

    /** The final assignment of a pass: `d->map[type_id] = new_id`, and the filing. */
    method Settle(typeId: Id, newId: Id, h: nat) returns (err: int)
      requires Pristine() && TableValid() && 0 < typeId < |input| && !Mapped(idMap[typeId])
          && h == Signature(input[typeId])
      requires newId < |input|
      requires newId == typeId ==> NoneEqual(input, typeId)
      requires newId != typeId ==> CanSettle(input, exact, idMap[..], typeId, newId)
      modifies idMap, table
      ensures Pristine() && idMap[..] == old(idMap[..])[typeId := newId]
      ensures err == 0
      ensures TableValid()
      ensures table.Entries() == if newId == typeId then old(table.Entries()) + multiset{HashMaps.Entry(h, typeId)}
          else old(table.Entries())
    {
      hide WfMap, Same, MapOk, WellFormed, Refs, Signature, TableOk, LinkOk;
      if newId == typeId {
        err := AddCanonical(typeId, h);
      } else {
        ghost var m := idMap[..];
        MapFirst(input, exact, m, typeId, newId);
        SettleExactly(input, exact, m, typeId, newId);
        TableMapped(input, m, typeId, newId, table.Entries());
        idMap[typeId] := newId;
        assert idMap[..] == m[typeId := newId];
        return 0;
      }
    }

    method DedupPrimTypes() returns (err: int)
      requires Pristine() && TableValid() && PrimsUpTo(input, idMap[..], 1) && EnumsSoFar(1)
      modifies idMap, table
      ensures Pristine()
      ensures err == 0 || (err == -EINVAL && HasVoid(input))
      ensures err == 0 ==> TableValid() && PrimResult(input, exact, idMap[..])
    {
      hide WfMap, Same, MapOk, WellFormed, Refs, Signature, TableOk, IsValueKind, WfGraph, TableValid,
          ExactIfUnresolved, EnumsUpTo, PrimsUpTo;
      for i := 1 to nrTypes + 1
        invariant Pristine() && TableValid() && PrimsUpTo(input, idMap[..], i) && EnumsSoFar(i)
        invariant nrTypes == |input| - 1
        modifies idMap, table
      {
        err := DedupPrimType(i);
        if err != 0 {
          return;
        }
      }
      PrimsAll(input, exact, idMap[..], table.Entries());
      return 0;
    }

    // -------------------------------------------------------------- reference types

    ghost predicate Refining(stack: seq<Id>)
      reads this, types, idMap, table
    {
      && Sized() && table.Valid()
      && (forall k :: table.ident(k) == k)
      && RefState(input, strong, types[..], idMap[..], stack, finished)
      && History(input, types[..], idMap[..], finished)
      && TableOk(types[..], idMap[..], table.Entries())
    }

    /** `d->map[type_id] = BTF_IN_PROGRESS_ID` */
    method BeginRef(typeId: Id, ghost stack: seq<Id>)
      requires Refining(stack) && typeId < |input| && Reaches(input, stack, typeId) && idMap[typeId] == UNPROCESSED
      modifies idMap
      ensures Refining(stack + [typeId]) && idMap[..] == old(idMap[..])[typeId := IN_PROGRESS]
      ensures Unset(idMap[..]) < Unset(old(idMap[..]))
      ensures 0 < typeId && typeId !in stack && IsRefKind(input[typeId].info.kind) && types[typeId] == input[typeId]
    {
      hide LinkOk, Rewritten, Same, Signature, TableOk, Path, Topological, Reaches, Refs, WellFormed, History;
      ghost var g0, m0 := types[..], idMap[..];
      BeginType(input, strong, g0, m0, stack, finished, typeId);
      HistoryBegins(input, g0, m0, finished, typeId);
      TableMapped(g0, m0, typeId, IN_PROGRESS, table.Entries());
      idMap[typeId] := IN_PROGRESS;
      assert idMap[..] == m0[typeId := IN_PROGRESS];
      assert typeId in Unset(m0) && typeId !in Unset(idMap[..]);
    }

    lemma MapEntry(typeId: Id, stack: seq<Id>)
      requires Refining(stack) && typeId < |input|
      ensures Sized() && types.Length == idMap.Length == |input|
      ensures RefState(input, strong, types[..], idMap[..], stack, finished)
      ensures idMap[typeId] <= MAX_NR_TYPES || idMap[typeId] == IN_PROGRESS || idMap[typeId] == UNPROCESSED
    {
      hide LinkOk, Rewritten, Same, Signature, TableOk, Path, Topological, Reaches, Refs, WellFormed, AllSettledRefs,
          History;
      assert idMap[typeId] == idMap[..][typeId];
    }

    /** `btf_dedup_ref_type`: the canonical id of a type, after its references were resolved. */
    method DedupRefType(typeId: Id, ghost stack: seq<Id>) returns (r: int)
      requires Refining(stack) && typeId < |input| && Reaches(input, stack, typeId)
      modifies types, idMap, table, this`finished
      ensures r >= 0 || r == -ELOOP
      ensures r >= 0 ==> Refining(stack) && Kept(old(types[..]), old(idMap[..]), types[..], idMap[..])
      ensures r >= 0 ==> Mapped(idMap[typeId]) && r == Resolve(input, idMap[..], typeId)
      ensures r >= 0 ==> r < idMap.Length && idMap[r] == r
      ensures r == -ELOOP ==> HasRefCycle(input)
      decreases Unset(idMap[..]), 1
    {
      hide Refining, Reaches, Resolve, HasRefCycle, ChildrenMapped, SettledRefs, Refs, Unset, IsRefKind,
          Rewritten, AllSettledRefs, Topological, InProgress, Finished, Path, Pending, WfGraph, MapOk;
      MapEntry(typeId, stack);
      ghost var g0, m0 := types[..], idMap[..];
      if idMap[typeId] == IN_PROGRESS {
        FoundCycle(input, idMap[..], stack, typeId);
        return -ELOOP;
      }
      if idMap[typeId] <= MAX_NR_TYPES {
        r := ResolveTypeId(typeId);
        MappedResolves(input, strong, g0, m0, typeId);
        return;
      }
      BeginRef(typeId, stack);
      r := DedupChildren(typeId, stack + [typeId]);
      if r < 0 {
        return;
      }
      ghost var g1, m1 := types[..], idMap[..];
      r := FinishRef(typeId, stack);
      KeptOver(g0, m0, g1, m1, typeId, r);
    }

    /** The references of one type, resolved one after the other: the element type of an array
        before its index type, the result of a prototype before its parameters. */
    method DedupChildren(typeId: Id, ghost stack: seq<Id>) returns (r: int)
      requires Refining(stack) && stack != [] && stack[|stack| - 1] == typeId
      requires 0 < typeId < |input| && idMap[typeId] == IN_PROGRESS && types[typeId] == input[typeId]
      modifies types, idMap, table, this`finished
      ensures r >= 0 || r == -ELOOP
      ensures r >= 0 ==> Refining(stack) && KeptBut(typeId, old(types[..]), old(idMap[..]), types[..], idMap[..])
      ensures r >= 0 ==> ChildrenMapped(input, idMap[..], typeId) && SettledRefs(types[typeId], idMap[..])
      ensures r == -ELOOP ==> HasRefCycle(input)
      decreases Unset(idMap[..]), 3
    {
      hide Refining, KeptBut, Visited, ChildrenMapped, SettledRefs, HasRefCycle, Unset, Refs, WfGraph;
      ghost var g0, m0 := types[..], idMap[..];
      BeginVisit(typeId, stack);
      var n := |Refs(types[typeId])|;
      for k := 0 to n
        invariant Refining(stack) && |types[..]| == |g0| == |idMap[..]| && KeptBut(typeId, g0, m0, types[..], idMap[..])
        invariant Visited(input, types[..], idMap[..], typeId, k) && idMap[typeId] == IN_PROGRESS
      {
        UnsetShrinks(typeId, g0, m0, types[..], idMap[..]);
        r := DedupChild(typeId, k, n, stack, g0, m0);
        if r < 0 {
          return;
        }
      }
      EndVisit(typeId, n, stack);
      return 0;
    }

    lemma BeginVisit(typeId: Id, stack: seq<Id>)
      requires Refining(stack) && 0 < typeId < |input| && idMap[typeId] == IN_PROGRESS && types[typeId] == input[typeId]
      ensures |types[..]| == |idMap[..]| == |input| && KeptBut(typeId, types[..], idMap[..], types[..], idMap[..])
      ensures Visited(input, types[..], idMap[..], typeId, 0)
    {
      hide History, LinkOk, Rewritten, Same, Signature, TableOk, Path, Topological, Refs, WellFormed, WfMap, WfGraph,
          InProgress,
          Finished, SetRef;
      VisitStart(input, types[..], idMap[..], typeId);
    }

    lemma EndVisit(typeId: Id, n: nat, stack: seq<Id>)
      requires Refining(stack) && 0 < typeId < |input| && Visited(input, types[..], idMap[..], typeId, n)
          && n == |Refs(input[typeId])|
      ensures ChildrenMapped(input, idMap[..], typeId) && SettledRefs(types[typeId], idMap[..])
    {
      hide History, LinkOk, Rewritten, Same, Signature, TableOk, Path, Topological, Refs, WellFormed, WfMap, WfGraph,
          InProgress,
          Finished, SetRef;
      VisitEnd(input, types[..], idMap[..], typeId);
    }

    /** One reference resolved and rewritten. */
    method DedupChild(typeId: Id, k: nat, n: nat, ghost stack: seq<Id>, ghost g0: Graph, ghost m0: IdMap)
        returns (r: int)
      requires Refining(stack) && stack != [] && stack[|stack| - 1] == typeId && 0 < typeId < |input|
      requires |types[..]| == |g0| == |m0| == |idMap[..]| && KeptBut(typeId, g0, m0, types[..], idMap[..])
      requires Visited(input, types[..], idMap[..], typeId, k) && k < n == |Refs(input[typeId])|
          && idMap[typeId] == IN_PROGRESS
      modifies types, idMap, table, this`finished
      ensures r >= 0 || r == -ELOOP
      ensures r >= 0 ==> Refining(stack) && KeptBut(typeId, g0, m0, types[..], idMap[..])
      ensures r >= 0 ==> Visited(input, types[..], idMap[..], typeId, k + 1) && idMap[typeId] == IN_PROGRESS
      ensures r == -ELOOP ==> HasRefCycle(input)
      decreases Unset(idMap[..]), 2
    {
      hide History, LinkOk, Rewritten, Same, Signature, TableOk, Path, Topological, Refs, WellFormed, WfMap, WfGraph,
          InProgress,
          Finished, SetRef;
      ghost var g1, m1 := types[..], idMap[..];
      var slot := VisitSlot(types[typeId].info.kind, k);
      VisitChild(input, g1, m1, typeId, k);
      GraphSize(input);
      r := DedupRefType(Refs(types[typeId])[slot], stack);
      if r < 0 {
        return;
      }
      ghost var m2 := idMap[..];
      assert types[typeId] == g1[typeId];
      RewriteSlot(typeId, slot, r, stack);
      VisitAdvance(input, g1, m1, m2, typeId, k, types[typeId]);
      VisitedAgain(input, g1[typeId := types[typeId]], types[..], m2, typeId, k + 1);
    }

    /** `t->type = ref_type_id` and its like. */
    method RewriteSlot(typeId: Id, slot: nat, r: Id, ghost stack: seq<Id>)
      requires Refining(stack) && 0 < typeId < |input| && idMap[typeId] == IN_PROGRESS
      requires slot < |Refs(types[typeId])| && Refs(types[typeId])[slot] < |input|
      requires r == Resolve(input, idMap[..], Refs(types[typeId])[slot]) && idMap[r] == r
      modifies types
      ensures Refining(stack) && types[..] == old(types[..])[typeId := types[typeId]]
      ensures Refs(types[typeId]) == old(Refs(types[typeId]))[slot := r]
          && types[typeId].info == old(types[typeId].info)
    {
      hide History, Refs, SetRef, RefState, TableOk, WellFormed, Resolve, WfGraph, MapOk;
      ghost var g := types[..];
      var d := SetRef(types[typeId], slot, r);
      RewriteFacts(typeId, slot, r, stack);
      types[typeId] := d;
      assert types[..] == g[typeId := d];
      Refined(stack);
    }

    lemma RewriteFacts(typeId: Id, slot: nat, r: Id, stack: seq<Id>)
      requires Refining(stack) && 0 < typeId < |input| && idMap[typeId] == IN_PROGRESS
      requires slot < |Refs(types[typeId])| && Refs(types[typeId])[slot] < |input|
      requires r == Resolve(input, idMap[..], Refs(types[typeId])[slot]) && idMap[r] == r
      ensures var d := SetRef(types[typeId], slot, r);
              && RefState(input, strong, types[..][typeId := d], idMap[..], stack, finished)
              && TableOk(types[..][typeId := d], idMap[..], table.Entries())
              && History(input, types[..][typeId := d], idMap[..], finished)
              && Refs(d) == Refs(types[typeId])[slot := r] && d.info == types[typeId].info
    {
      var g, m := types[..], idMap[..];
      ResolveSame(input, strong, m, Refs(types[typeId])[slot]);
      assert WellFormed(types[typeId]);
      SetRefFacts(types[typeId], slot, r);
      hide LinkOk, Rewritten, Same, Signature, TableOk, Path, Topological, Refs, WellFormed, WfMap, WfGraph, InProgress,
          Finished, SetRef, Resolve, History;
      RewriteRef(input, strong, g, m, stack, finished, typeId, slot, r);
      HistoryRewritten(input, g, m, finished, typeId, slot, SetRef(types[typeId], slot, r), r);
      TableRewritten(g, m, typeId, SetRef(types[typeId], slot, r), table.Entries());
    }

    lemma Refined(stack: seq<Id>)
      requires Sized() && table.Valid() && forall k :: table.ident(k) == k
      requires RefState(input, strong, types[..], idMap[..], stack, finished)
      requires TableOk(types[..], idMap[..], table.Entries()) && History(input, types[..], idMap[..], finished)
      ensures Refining(stack)
    {
      hide Sized, RefState, TableOk, History;
    }

    /** All references are resolved: settle on an identical canonical type, or be one. */
    method FinishRef(typeId: Id, ghost stack: seq<Id>) returns (r: int)
      requires Refining(stack + [typeId]) && typeId !in stack
      requires 0 < typeId < |input| && idMap[typeId] == IN_PROGRESS && IsRefKind(input[typeId].info.kind)
      requires ChildrenMapped(input, idMap[..], typeId) && SettledRefs(types[typeId], idMap[..])
      modifies idMap, table, this`finished
      ensures r >= 0
      ensures Refining(stack) && Mapped(r) && idMap[..] == old(idMap[..])[typeId := r]
      ensures r == Resolve(input, idMap[..], typeId)
      ensures r < types.Length && types[r] == types[typeId] && idMap[r] == r
    {
      hide History, RefState, TableOk, MapOk, WellFormed, Signature, Resolve, ChildrenMapped, SettledRefs, Refs;
      InProgressFacts(typeId, stack + [typeId]);
      var h := HashValue(types[typeId]);
      var newId := FindCanonical(typeId, h);
      var err := Conclude(typeId, newId, h, stack);
      return if err == 0 then newId else err;
    }

    lemma InProgressFacts(typeId: Id, stack: seq<Id>)
      requires Refining(stack) && 0 < typeId < |input| && idMap[typeId] == IN_PROGRESS
          && IsRefKind(input[typeId].info.kind)
      ensures WellFormed(types[typeId]) && types[typeId].info == input[typeId].info && types.Length <= MAX_NR_TYPES + 1
      ensures forall i :: 0 <= i < |input| && Target(types[..], idMap[..], i) && types[i] == types[typeId] ==>
          idMap[i] == i
    {
      hide History, TableOk, MapOk, Pending, InProgress, Finished, Path, Topological, Rewritten, WellFormed, WfGraph,
          HashMaps.HashMap.Valid, HashMaps.HashMap.Entries;
      RewrittenKeeps(input, strong, types[..], typeId);
      RefsAreCanonical(types[..], idMap[..], typeId);
    }

    /** Identical reference types can only be canonical. */
    lemma RefsAreCanonical(g: Graph, m: IdMap, j: Id)
      requires |g| == |m| && j < |g| && IsRefKind(g[j].info.kind)
      ensures forall i :: 0 <= i < |g| && Target(g, m, i) && g[i] == g[j] ==> m[i] == i
    {
    }

    /** The type settles on `newId`, and is filed if that is itself. */
    method Conclude(typeId: Id, newId: Id, h: nat, ghost stack: seq<Id>) returns (err: int)
      requires Refining(stack + [typeId]) && typeId !in stack
      requires 0 < typeId < |input| && idMap[typeId] == IN_PROGRESS && IsRefKind(input[typeId].info.kind)
      requires ChildrenMapped(input, idMap[..], typeId) && SettledRefs(types[typeId], idMap[..])
          && WellFormed(types[typeId]) && h == Signature(types[typeId])
      requires newId < |input| && types[newId] == types[typeId] && (newId == typeId || idMap[newId] == newId)
      requires newId == typeId ==> NoneEqual(types[..], typeId)
      modifies idMap, table, this`finished
      ensures err == 0
      ensures Refining(stack) && idMap[..] == old(idMap[..])[typeId := newId]
      ensures newId == Resolve(input, idMap[..], typeId)
    {
      hide History, RefState, TableOk, MapOk, WellFormed, Signature, Resolve, ChildrenMapped, SettledRefs, Refs, Target,
          NoneEqual, WfGraph, HashMaps.HashMap.Valid, HashMaps.HashMap.Entries;
      ConcludeFacts(typeId, newId, stack);
      ghost var m := idMap[..];
      idMap[typeId] := newId;
      finished := finished + [typeId];
      assert idMap[..] == m[typeId := newId];
      err := 0;
      if newId == typeId {
        err := TableAdd(h, typeId);
      }
      if err == 0 {
        Refined(stack);
      }
    }

    lemma ConcludeFacts(typeId: Id, newId: Id, stack: seq<Id>)
      requires Refining(stack + [typeId]) && typeId !in stack
      requires 0 < typeId < |input| && idMap[typeId] == IN_PROGRESS && IsRefKind(input[typeId].info.kind)
      requires ChildrenMapped(input, idMap[..], typeId) && SettledRefs(types[typeId], idMap[..])
          && WellFormed(types[typeId])
      requires newId < |input| && types[newId] == types[typeId] && (newId == typeId || idMap[newId] == newId)
      requires newId == typeId ==> NoneEqual(types[..], typeId)
      ensures var m' := idMap[..][typeId := newId];
              && RefState(input, strong, types[..], m', stack, finished + [typeId])
              && MapOk(input, strong, m')
              && History(input, types[..], m', finished + [typeId])
              && TableOk(types[..], m', if newId == typeId
                  then table.Entries() + multiset{HashMaps.Entry(Signature(types[typeId]), typeId)}
                  else table.Entries())
              && newId == Resolve(input, m', typeId)
      ensures newId == typeId ==> |table.Entries()| <= MAX_NR_TYPES
    {
      var g, m := types[..], idMap[..];
      hide LinkOk, Rewritten, Same, Signature, TableOk, Path, Topological, Refs, WellFormed, InProgress, Finished,
          Resolve, AllSettledRefs, SettledRefs, History;
      FinishType(input, strong, g, m, stack, finished, typeId, newId);
      HistoryFinishes(input, g, m, finished, typeId, newId);
      if newId == typeId {
        TableAdds(g, m, typeId, table.Entries());
        TableFits(g, m[typeId := typeId], table.Entries() + multiset{HashMaps.Entry(Signature(types[typeId]), typeId)});
      } else {
        TableMapped(g, m, typeId, newId, table.Entries());
      }
    }

    method DedupRefTypes() returns (err: int)
      requires Pristine() && TableValid() && StructsDone(input, idMap[..]) && finished == []
      modifies types, idMap, table, this`finished, this`strong
      ensures err == 0 || err == -ELOOP
      ensures err == 0 ==>
          Refining([]) && AllMapped(idMap[..]) && CanonicalDistinct(types[..], idMap[..])
          && CanonicalRefs(types[..], idMap[..])
      ensures err == 0 ==> Topological(input, finished) && AllOrdered(input, finished) && !HasRefCycle(input)
      ensures err == 0 ==> MapKept(old(idMap[..]), idMap[..]) && strong == (exact || Unresolved(input, idMap[..]))
      ensures err == 0 ==> (Unresolved(input, idMap[..]) <==> old(Unresolved(input, idMap[..])))
      ensures err == -ELOOP ==> HasRefCycle(input)
    {
      hide Pristine, TableValid, StructsDone, Refining, AllMapped, CanonicalDistinct, CanonicalRefs, Topological,
          AllOrdered, HasRefCycle, MapKept,
           Unresolved, MappedBelow, WfGraph, MapOk, HashMaps.HashMap.Valid;
      ghost var m0 := idMap[..];
      StrongMap();
      strong := exact || Unresolved(input, m0);
      StartRefs();
      for i := 1 to nrTypes + 1
        invariant Refining([]) && nrTypes == |input| - 1
        invariant MappedBelow(i) && MapKept(m0, idMap[..])
        modifies types, idMap, table, this`finished
      {
        var r := DedupRound(i, m0);
        if r < 0 {
          return r;
        }
      }
      EndRefs();
      ResolvedEarly(input, m0, idMap[..]);
      return 0;
    }

    ghost predicate MappedBelow(n: nat)
      reads idMap
    {
      n <= idMap.Length && forall k {:trigger idMap[k]} :: 0 <= k < n ==> Mapped(idMap[k])
    }

    method DedupRound(i: Id, ghost m0: IdMap) returns (r: int)
      requires Refining([]) && 0 < i < |input| && MappedBelow(i) && MapKept(m0, idMap[..])
      modifies types, idMap, table, this`finished
      ensures r >= 0 || r == -ELOOP
      ensures r >= 0 ==> Refining([]) && MappedBelow(i + 1) && MapKept(m0, idMap[..])
      ensures r == -ELOOP ==> HasRefCycle(input)
    {
      hide History, RefState, TableOk, MapOk, WfGraph, HashMaps.HashMap.Valid, HasRefCycle, Resolve;
      ghost var m := idMap[..];
      r := DedupRefType(i, []);
      assert forall k :: 0 <= k < i ==> m[k] == idMap[k] || r < 0;
    }

    /** Nothing was resolved before: then the map is one of a run without forward resolution. */
    lemma StrongMap()
      requires Pristine()
      ensures WfGraph(input) && MapOk(input, exact || Unresolved(input, idMap[..]), idMap[..]) && Mapped(idMap[..][0])
      ensures types.Length == idMap.Length == hypotMap.Length == |input| && idMap != hypotMap && types[..] == input
          && nrTypes == |input| - 1
    {
    }

    lemma StartRefs()
      requires WfGraph(input) && MapOk(input, strong, idMap[..]) && types[..] == input && nrTypes == |input| - 1
      requires types.Length == idMap.Length == hypotMap.Length == |input| && idMap != hypotMap
      requires TableValid() && StructsDone(input, idMap[..]) && finished == []
      ensures Refining([]) && MappedBelow(1) && MapKept(idMap[..], idMap[..])
    {
      hide History, WellFormed, Refs, Signature, TableOk, Same, LinkOk, Rewritten;
      HistoryStarts(input, idMap[..]);
      RewrittenRefl(input, strong);
    }

    lemma EndRefs()
      requires Refining([]) && MappedBelow(|input|)
      ensures AllMapped(idMap[..]) && Topological(input, finished) && AllOrdered(input, finished) && !HasRefCycle(input)
      ensures CanonicalDistinct(types[..], idMap[..]) && CanonicalRefs(types[..], idMap[..])
    {
      hide History, WellFormed, Refs, Signature, TableOk, Same, LinkOk, Topological, HasRefCycle, CanonicalDistinct,
          SettledRefs,
          Rewritten;
      forall i {:trigger input[i]} | 0 <= i < |input| && IsRefKind(input[i].info.kind) ensures i in finished {
        assert Mapped(idMap[..][i]);
      }
      NoCycle(input, finished);
      TableDistinct(types[..], idMap[..], table.Entries());
      forall i {:trigger types[..][i]} | 0 <= i < types.Length && IsRefKind(types[i].info.kind)
        ensures SettledRefs(types[i], idMap[..])
      {
        RewrittenKeeps(input, strong, types[..], i);
        assert i in finished;
      }
    }

    // -------------------------------------------------------------- compaction and remapping

    /** `btf_dedup_compact_types`: canonical descriptors move to the front, and `hypot_map`
        is reused for the renumbering. */
    method CompactTypes() returns (err: int)
      requires Sized() && nrTypes == |input| - 1 && types[0] == VOID_DESC
      modifies types, hypotMap, this`nrTypes
      ensures Sized() && (err == 0 || err == -EINVAL)
      ensures err == -EINVAL ==> exists i :: 0 < i < |input| && old(types[i]).info.kind == VOID
      ensures err == 0 ==> Numbering(idMap[..], hypotMap[..], |input|)
      ensures err == 0 ==> nrTypes == |Canonicals(idMap[..], |input|)| < |input| && types[0] == VOID_DESC
      ensures err == 0 ==> forall k {:trigger Canonicals(idMap[..], |input|)[k]} :: 0 <= k < nrTypes ==>
                Canonicals(idMap[..], |input|)[k] < |input|
                    && types[k + 1] == old(types[..])[Canonicals(idMap[..], |input|)[k]]
    {
      hide Same, WellFormed, Refs, LinkOk, Canonicals, MapOk, Numbering, WfGraph, WfMap;
      ghost var m, g := idMap[..], types[..];
      hypotMap[0] := 0;
      for i := 1 to nrTypes + 1
        invariant hypotMap[0] == 0 && forall k :: 1 <= k < i ==> hypotMap[k] == UNPROCESSED
        invariant idMap[..] == m
        modifies hypotMap
      {
        hypotMap[i] := UNPROCESSED;
      }
      var nextTypeId := 1;
      NumberStart(m, hypotMap[..]);
      CanonicalsFacts(m, 1);
      for i := 1 to nrTypes + 1
        invariant idMap[..] == m && nrTypes == |input| - 1
        invariant Numbering(m, hypotMap[..], i) && nextTypeId == |Canonicals(m, i)| + 1 <= i
        invariant types[0] == VOID_DESC
        invariant forall k {:trigger Canonicals(m, i)[k]} :: 0 <= k < nextTypeId - 1 ==>
            Canonicals(m, i)[k] < |input| && types[k + 1] == g[Canonicals(m, i)[k]]
        invariant forall k :: i <= k < |input| ==> types[k] == g[k]
      {
        NumberNext(m, hypotMap[..], i);
        if idMap[i] == i {
          if types[i].info.kind == VOID {
            return -EINVAL;
          }
          ghost var h := hypotMap[..];
          types[nextTypeId] := types[i];
          hypotMap[i] := nextTypeId;
          assert hypotMap[..] == h[i := nextTypeId];
          nextTypeId := nextTypeId + 1;
        }
      }
      CanonicalsFacts(m, |input|);
      nrTypes := nextTypeId - 1;
      return 0;
    }

    /** `btf_dedup_remap_type_id`, which fails on an id without a number. */
    method RemapTypeId(typeId: Id) returns (r: int)
      requires Sized() && typeId < |input|
      ensures var id := NewId(input, idMap[..], hypotMap[..], typeId);
              r == if id <= MAX_NR_TYPES then id else -EINVAL
    {
      hide Same, WellFormed, Refs, LinkOk, Resolve, WfMap;
      var resolvedTypeId := ResolveTypeId(typeId);
      var newTypeId := hypotMap[resolvedTypeId];
      if newTypeId > MAX_NR_TYPES {
        return -EINVAL;
      }
      return newTypeId;
    }

    /** `btf_dedup_remap_type`: every reference of a kept descriptor gets its final id. The
        result is 0 exactly when the kind is valid and every reference has a final id. */
    method RemapType(typeId: Id) returns (err: int)
      requires Sized() && 0 < typeId < types.Length && WellFormed(types[typeId]) && RefsInRange(types[typeId], |input|)
      requires hypotMap[0] == 0
      modifies types
      ensures err == 0 || err == -EINVAL
      ensures err == 0 <==>
          old(types[typeId]).info.kind != VOID
          && AllNumbered(input, idMap[..], hypotMap[..], old(types[typeId]))
      ensures err == 0 ==>
          types[..] ==
          old(types[..])[typeId := Renumber(input, idMap[..], hypotMap[..], old(types[typeId]))]
    {
      hide Same, Refs, LinkOk, Resolve, WfMap, WithRefs, NewId, SetRef;
      ghost var g, t := types[..], types[typeId];
      match types[typeId].info.kind
      case VOID =>
        return -EINVAL;
      case INT | ENUM =>
        NoRefs(t);
        RenumberNothing(input, idMap[..], hypotMap[..], t);
        assert types[..] == g[typeId := t];
        return 0;
      case FWD =>
        NoRefs(t);
        RenumberNothing(input, idMap[..], hypotMap[..], t);
        var r := RemapTypeId(types[typeId].word);
        VoidNumber(input, idMap[..], hypotMap[..]);
        types[typeId] := types[typeId].(word := r);
        assert types[..] == g[typeId := t];
        return 0;
      case _ =>
        err := RemapRefs(typeId);
    }

    method RemapRefs(typeId: Id) returns (err: int)
      requires Sized() && 0 < typeId < types.Length && WellFormed(types[typeId]) && RefsInRange(types[typeId], |input|)
      modifies types
      ensures err == 0 || err == -EINVAL
      ensures err == 0 <==> AllNumbered(input, idMap[..], hypotMap[..], old(types[typeId]))
      ensures err == 0 ==>
          types[..] ==
          old(types[..])[typeId := Renumber(input, idMap[..], hypotMap[..], old(types[typeId]))]
    {
      hide *;
      ghost var g, t := types[..], types[typeId];
      MixStart(typeId);
      var n := |Refs(types[typeId])|;
      var k := 0;
      while k < n
        invariant k <= n == |Refs(t)| && Mixing(typeId, k, g, t)
      {
        err := RemapSlot(typeId, k, g, t);
        if err != 0 {
          return;
        }
        k := k + 1;
      }
      MixEnd(typeId, g, t);
      return 0;
    }

    /** The first `k` references of `t` are renumbered, and had numbers. */
    ghost predicate Mixing(typeId: Id, k: nat, g: Graph, t: Desc)
      reads this, idMap, hypotMap, types
    {
      && Sized() && 0 < typeId < types.Length == |g| && t == g[typeId] && k <= |Refs(t)|
      && RefsInRange(t, |input|)
      && var qs := NewRefs(input, idMap[..], hypotMap[..], Refs(t));
         types[..] == g[typeId := WithRefs(t, qs[..k] + Refs(t)[k..])] && forall j :: 0 <= j < k ==> Mapped(qs[j])
    }

    lemma MixStart(typeId: Id)
      requires Sized() && 0 < typeId < types.Length && RefsInRange(types[typeId], |input|)
      ensures Mixing(typeId, 0, types[..], types[typeId])
    {
      hide Same, Refs, LinkOk, Resolve, WithRefs, NewId, WfMap, WellFormed;
      var t := types[typeId];
      var qs := NewRefs(input, idMap[..], hypotMap[..], Refs(t));
      assert qs[..0] + Refs(t)[0..] == Refs(t);
      WithOwnRefs(t);
    }

    lemma MixEnd(typeId: Id, g: Graph, t: Desc)
      requires Mixing(typeId, |Refs(t)|, g, t)
      ensures AllNumbered(input, idMap[..], hypotMap[..], t)
      ensures types[..] == g[typeId := Renumber(input, idMap[..], hypotMap[..], t)]
    {
      hide Same, Refs, LinkOk, Resolve, WithRefs, NewId, WfMap, WellFormed;
      var n, qs := |Refs(t)|, NewRefs(input, idMap[..], hypotMap[..], Refs(t));
      assert qs[..n] + Refs(t)[n..] == qs;
      assert forall j :: 0 <= j < n ==> qs[j] == NewId(input, idMap[..], hypotMap[..], Refs(t)[j]);
    }

    /** One reference of a kept descriptor. */
    method RemapSlot(typeId: Id, k: nat, ghost g: Graph, ghost t: Desc) returns (err: int)
      requires Mixing(typeId, k, g, t) && k < |Refs(t)|
      modifies types
      ensures err == 0 || err == -EINVAL
      ensures err == 0 ==> Mixing(typeId, k + 1, g, t) && |Refs(types[typeId])| == |Refs(t)|
      ensures err == -EINVAL ==> !AllNumbered(input, idMap[..], hypotMap[..], t)
    {
      hide Same, Refs, LinkOk, Resolve, WithRefs, NewId, WfMap, WellFormed, SetRef;
      ghost var qs := NewRefs(input, idMap[..], hypotMap[..], Refs(t));
      RewriteNext(t, Refs(t), qs, k);
      assert types[typeId] == WithRefs(t, qs[..k] + Refs(t)[k..]);
      var r := RemapTypeId(Refs(types[typeId])[k]);
      assert qs[k] == NewId(input, idMap[..], hypotMap[..], Refs(t)[k]);
      if r < 0 {
        return r;
      }
      types[typeId] := SetRef(types[typeId], k, r);
      assert types[..] == g[typeId := WithRefs(t, qs[..k + 1] + Refs(t)[k + 1..])];
      MixLength(t, qs[..k + 1] + Refs(t)[k + 1..]);
      return 0;
    }

    lemma MixLength(t: Desc, rs: seq<Id>)
      requires |rs| == |Refs(t)|
      ensures |Refs(WithRefs(t, rs))| == |rs|
    {
      WithRefsLaws(t, rs, rs);
    }

    /** Position `k` of the compacted row, before and after remapping. */
    ghost predicate RemapState(g1: Graph, n: nat)
      reads this, idMap, hypotMap, types
    {
      && Sized() && WfGraph(g1) && |g1| == |input| && AllMapped(idMap[..])
          && Numbering(idMap[..], hypotMap[..], |input|)
      && nrTypes == |Canonicals(idMap[..], |input|)| < |input| && types[0] == VOID_DESC
      && var c := Canonicals(idMap[..], |input|);
         forall k {:trigger c[k]} :: 0 <= k < nrTypes ==>
           (0 < c[k] < |input| && if k < n then Renumbered(input, g1, idMap[..], hypotMap[..], c[k], types[k + 1])
               else types[k + 1] == g1[c[k]])
    }

    method RemapTypes(ghost g1: Graph) returns (err: int)
      requires RemapState(g1, 0) && forall i :: 0 < i < |g1| ==> g1[i].info.kind != VOID
      modifies types
      ensures err == 0
      ensures RemapState(g1, nrTypes)
    {
      hide Same, WellFormed, Refs, LinkOk, Canonicals, MapOk, Renumbered, Numbering, WfGraph;
      for i := 1 to nrTypes + 1
        invariant RemapState(g1, i - 1)
        modifies types
      {
        err := RemapRound(i, g1);
        if err != 0 {
          return;
        }
      }
      return 0;
    }

    method RemapRound(i: Id, ghost g1: Graph) returns (err: int)
      requires 0 < i <= nrTypes && RemapState(g1, i - 1) && forall i :: 0 < i < |g1| ==> g1[i].info.kind != VOID
      modifies types
      ensures err == 0 && RemapState(g1, i)
    {
      hide Same, WellFormed, Refs, LinkOk, Canonicals, WfMap, Numbering, WfGraph, AllNumbered, Renumber, RefsInRange,
          AllMapped;
      RemapReady(i, g1);
      ghost var c := Canonicals(idMap[..], |input|);
      assert types[i] == g1[c[i - 1]];
      err := RemapType(i);
      assert Renumbered(input, g1, idMap[..], hypotMap[..], c[i - 1], types[i]);
    }

    /** The next descriptor to remap is well-formed, and all its references have numbers. */
    lemma RemapReady(i: Id, g1: Graph)
      requires 0 < i <= nrTypes && RemapState(g1, i - 1)
      ensures var c := Canonicals(idMap[..], |input|)[i - 1];
              0 < c < |g1| && types[i] == g1[c] && WellFormed(g1[c]) && RefsInRange(g1[c], |input|)
              && AllNumbered(input, idMap[..], hypotMap[..], g1[c])
      ensures hypotMap[0] == 0
    {
      hide Same, WellFormed, Refs, LinkOk, Canonicals, Resolve, Renumbered;
      var c := Canonicals(idMap[..], |input|)[i - 1];
      forall k | 0 <= k < |Refs(g1[c])| ensures Mapped(NewId(input, idMap[..], hypotMap[..], Refs(g1[c])[k])) {
        NewIdExists(input, idMap[..], hypotMap[..], Refs(g1[c])[k]);
      }
    }

    // -------------------------------------------------------------- the whole run

    /** `btf.types[0..nr_types]` */
    ghost function Output(): Graph
      requires nrTypes < types.Length
      reads this, types
    {
      types[..nrTypes + 1]
    }

    /** The final id of every input id, as `btf_dedup_remap_type_id` computes it. */
    ghost function FinalIds(): seq<nat>
      requires Sized()
      reads this, idMap, hypotMap
    {
      NewIds(input, idMap[..], hypotMap[..])
    }

    /** `btf__dedup` after string deduplication. */
    method Run() returns (err: int)
      requires Pristine() && HypotOk() && TableValid() && IsInitial(input, idMap[..]) && finished == []
      modifies this, types, idMap, hypotMap, table
      ensures err == 0 || err == -EINVAL || err == -ELOOP
      ensures err == -EINVAL ==> Malformed(input)
      ensures HasVoid(input) ==> err == -EINVAL
      ensures err == -ELOOP ==> HasRefCycle(input)
      ensures err == 0 ==> !HasRefCycle(input) && nrTypes < types.Length && Sized()
      ensures err == 0 ==> Topological(input, finished) && AllOrdered(input, finished)
      ensures err == 0 ==> exists g1 :: Deduplicated(input, strong, g1, idMap[..], hypotMap[..], Output())
      ensures err == 0 ==> FieldsKept(input, FinalIds(), Output())
      ensures err == 0 ==> KeepsTags(input, FinalIds(), Output()) && ValuesDistinct(Output())
      ensures err == 0 ==>
          strong == (exact || ForwardsStay(input, FinalIds(), Output()))
          && KeepsReadings(input, strong, FinalIds(), Output())
      ensures err == 0 ==> (KeepsMeaning(input, PLAIN, FinalIds(), Output()) <==>
          ForwardsStay(input, FinalIds(), Output()))
      ensures err == 0 && !exact ==> InputDecides(input, ForwardsStay(input, FinalIds(), Output()))
      ensures err == 0 ==> exists m :: StructPass(input, exact, m) && MapKept(m, idMap[..])
    {
      hide Pristine, HypotOk, TableValid, Refining, Sized, PrimsUpTo, PrimsDone, StructsDone, IsInitial, AllMapped,
          Numbering, HasVoid, ProperRefs,
           Canonicals, RemapState, CanonicalDistinct, CanonicalRefs, HasRefCycle, Deduplicated, Output, FinalIds,
               KeepsTags, KeepsMeaning, KeepsReadings,
           ValuesDistinct, ForwardsStay, WfGraph, Rewritten, Unresolved, MapKept, StructPass, InputDecides, FieldsKept,
           History, VariablesStay,
           EnumsSoFar, Topological,
               AllOrdered;
      InitialPrims();
      err := DedupPrimTypes();
      if err != 0 {
        return;
      }
      NoVoids();
      err := DedupStructTypes();
      if err != 0 {
        return;
      }
      ghost var m := idMap[..];
      err := DedupRefTypes();
      if err != 0 {
        return;
      }
      ghost var g1 := types[..];
      AfterRefs();
      VariablesKept(m, idMap[..]);
      err := CompactTypes();
      if err != 0 {
        return;
      }
      AfterCompaction(g1);
      err := RemapTypes(g1);
      AfterRemap(g1);
    }

    lemma NoVoids()
      requires PrimsDone(input, exact, idMap[..])
      ensures !HasVoid(input) && forall i :: 0 < i < |input| ==> input[i].info.kind != VOID
    {
      forall i | 0 < i < |input| ensures input[i].info.kind != VOID {
        assert PrimState(input[i].info.kind, i, idMap[..][i], true);
      }
    }

    /** Variables and data sections were mapped to themselves at the start, for good. */
    lemma VariablesKept(m: IdMap, m': IdMap)
      requires WfGraph(input) && PrimsDone(input, exact, m) && MapKept(m, m') && |m'| == |input|
      ensures VariablesStay(input, m')
    {
      hide WellFormed, Refs, HasEnumClash, Unresolved;
      forall i {:trigger m'[i]} | 0 <= i < |input| && input[i].info.kind in {VAR, DATASEC} ensures m'[i] == i {
        assert PrimState(input[i].info.kind, i, m[i], true);
      }
    }

    lemma AfterRefs()
      requires Refining([]) && forall i :: 0 < i < |input| ==> input[i].info.kind != VOID
      ensures Sized() && types.Length == |input| && types[0] == VOID_DESC && Rewritten(input, strong, types[..])
      ensures forall i :: 0 < i < |input| ==> types[i].info.kind != VOID
      ensures History(input, types[..], idMap[..], finished)
    {
      hide WellFormed, Refs, TableOk, Same, LinkOk, Shape, History;
      forall i | 0 < i < |input| ensures types[i].info.kind != VOID {
        ShapeAndRefs(types[i], input[i]);
      }
    }

    lemma AfterCompaction(g1: Graph)
      requires Sized() && AllMapped(idMap[..]) && Numbering(idMap[..], hypotMap[..], |input|)
          && Rewritten(input, strong, g1)
      requires nrTypes == |Canonicals(idMap[..], |input|)| < |input| && types[0] == VOID_DESC
      requires forall k {:trigger Canonicals(idMap[..], |input|)[k]} :: 0 <= k < nrTypes ==>
                 Canonicals(idMap[..], |input|)[k] < |input| && types[k + 1] == g1[Canonicals(idMap[..], |input|)[k]]
      ensures RemapState(g1, 0)
    {
      hide WellFormed, Refs, Same, LinkOk, Shape, Canonicals, WfMap, Numbering;
      CanonicalsFacts(idMap[..], |input|);
    }

    lemma AfterRemap(g1: Graph)
      requires RemapState(g1, nrTypes) && Rewritten(input, strong, g1)
      requires |g1| == idMap.Length && CanonicalDistinct(g1, idMap[..]) && CanonicalRefs(g1, idMap[..])
      requires strong == (exact || Unresolved(input, idMap[..]))
      requires History(input, g1, idMap[..], finished) && AllOrdered(input, finished) && VariablesStay(input, idMap[..])
      ensures FieldsKept(input, FinalIds(), Output())
      ensures Sized() && nrTypes < types.Length
      ensures Deduplicated(input, strong, g1, idMap[..], hypotMap[..], Output())
      ensures KeepsTags(input, FinalIds(), Output()) && ValuesDistinct(Output())
      ensures KeepsReadings(input, strong, FinalIds(), Output())
      ensures strong == (exact || ForwardsStay(input, FinalIds(), Output()))
      ensures ForwardsStay(input, FinalIds(), Output()) <==> Unresolved(input, idMap[..])
      ensures KeepsMeaning(input, PLAIN, FinalIds(), Output()) <==> ForwardsStay(input, FinalIds(), Output())
    {
      hide WellFormed, Refs, Same, LinkOk, Shape, Canonicals, WfMap, Numbering, Renumbered, CanonicalDistinct,
          CanonicalRefs, KeepsTags, KeepsMeaning, NewId,
           Unresolved, ForwardsStay, ValuesDistinct, Coherent, History, FieldsKept, AllOrdered, VariablesStay;
      OutputFields(input, strong, g1, idMap[..], hypotMap[..], Output(), finished);
      StaysIfUnresolved(input, strong, g1, idMap[..], hypotMap[..], Output());
      AllKept(input, strong, g1, idMap[..], hypotMap[..], Output());
      OutputDistinct(input, strong, g1, idMap[..], hypotMap[..], Output());
      LostIfResolved(input, strong, g1, idMap[..], hypotMap[..], Output());
      if strong {
        PlainCoherent(input, strong);
      }
    }

    lemma InitialPrims()
      requires Pristine() && IsInitial(input, idMap[..])
      ensures PrimsUpTo(input, idMap[..], 1) && EnumsSoFar(1)
      ensures nrTypes == |input| - 1 && idMap != hypotMap && types.Length == idMap.Length == |input| > 0
    {
      hide WellFormed, Refs, Same;
    }
  }

  lemma NoneYet(g: Graph, i: Id, cands: seq<File>)
    requires i < |g|
    ensures Unequal(g, i, cands, 0)
  {
  }

  /** None of the first `k` candidates is identical to the type. */
  ghost predicate Unequal(g: Graph, i: Id, cands: seq<File>, k: nat)
    requires i < |g| && k <= |cands|
  {
    forall j :: 0 <= j < k ==> cands[j].value < |g| && g[cands[j].value] != g[i]
  }

  /** The conditions under which an unprocessed id may be mapped to another one. */
  ghost predicate CanSettle(g: Graph, exact: bool, m: IdMap, i: Id, j: Id)
    requires WfGraph(g) && |m| == |g| && i < |g| && j < |g|
  {
    && Same(g, exact, i, j) && IsPrimKind(g[j].info.kind)
    && ((FwdLike(g[i]) && !FwdLike(g[j]) && m[j] == j) || (g[i] == g[j] && Target(g, m, j)))
  }

  /** Mapping an unprocessed id resolves a forward declaration, or keeps a map exact. */
  lemma SettleExactly(g: Graph, exact: bool, m: IdMap, i: Id, j: Id)
    requires WfGraph(g) && MapOk(g, exact, m) && 0 < i < |g| && j < |g| && !Mapped(m[i])
    requires j == i || (FwdLike(g[i]) && !FwdLike(g[j])) || (g[i] == g[j] && Target(g, m, j))
    requires Unresolved(g, m) ==> MapOk(g, true, m)
    ensures Unresolved(g, m[i := j]) ==> MapOk(g, true, m[i := j])
  {
    hide Same, LinkOk, WellFormed, Refs, FwdLike;
    var m' := m[i := j];
    assert m'[i] == j;
    if Unresolved(g, m') {
      assert |m| == |g| <= MAX_NR_TYPES + 1;
      forall x {:trigger m[x]} | 0 <= x < |g| && FwdLike(g[x]) && m[x] < |g| ensures FwdLike(g[m[x]]) {
        assert m'[x] == m[x];
      }
      assert Unresolved(g, m);
      EqualDescsSame(g, true, i, j);
      MapFirst(g, true, m, i, j);
    }
  }

  /** Forward resolution of enums: a compatible candidate was mapped to the enum. */
  ghost predicate Taken(g: Graph, m: IdMap, i: Id, c: Id) {
    && i < |g| && c < |g| == |m| && WellFormed(g[i]) && WellFormed(g[c])
    && (g[i].info.kind == ENUM && EnumsCompatible(g[i], g[c]) ==> m[c] == i)
  }

  lemma TakenStays(g: Graph, m: IdMap, i: Id)
    requires i < |g| == |m|
    ensures forall c: Id {:trigger Taken(g, m[i := i], i, c)} :: Taken(g, m, i, c) ==> Taken(g, m[i := i], i, c)
  {
  }

  lemma EqualEnums(g: Graph, exact: bool, i: Id, j: Id)
    requires WfGraph(g) && i < |g| && j < |g| && g[i].info.kind == ENUM && EnumsEqual(g[i], g[j])
    ensures g[i] == g[j] && Same(g, exact, i, j) && FwdLike(g[i]) == FwdLike(g[j])
  {
    EqualDescsSame(g, exact, i, j);
  }

  lemma EnumsDiffer(t: Desc, cand: Desc)
    requires t.info.kind == ENUM && WellFormed(t) && WellFormed(cand) && !EnumsEqual(t, cand)
    ensures t != cand
  {
  }

  /** Enums that are compatible but not identical: one is a forward enum, the other is not. */
  lemma CompatibleEnums(g: Graph, i: Id, j: Id)
    requires WfGraph(g) && i < |g| && j < |g| && g[i].info.kind == ENUM
    requires EnumsCompatible(g[i], g[j]) && g[i] != g[j]
    ensures FwdLike(g[i]) != FwdLike(g[j]) && Same(g, false, i, j) && Same(g, false, j, i) && g[j].info.kind == ENUM
    ensures if FwdLike(g[i]) then EnumClash(g, i, j) else EnumClash(g, j, i)
  {
    EnumsOneFwd(g[i], g[j]);
    EitherClash(g, i, j);
    hide Refs, FwdLike, TagOf, WellFormed, EnumsCompatible, Unfold;
    assert Announces(g, i, j) || Announces(g, j, i);
    forall r | Coherent(g, false, r) ensures Equiv(g, r, i, j) && Equiv(g, r, j, i) {
      if Announces(g, i, j) {
        assert Equiv(g, r, i, j);
      } else {
        assert Equiv(g, r, j, i);
      }
    }
  }

  lemma EitherClash(g: Graph, i: Id, j: Id)
    requires i < |g| && j < |g| && WellFormed(g[i]) && WellFormed(g[j]) && g[i].info.kind == g[j].info.kind == ENUM
    requires EnumsCompatible(g[i], g[j]) && FwdLike(g[i]) != FwdLike(g[j])
    ensures if FwdLike(g[i]) then EnumClash(g, i, j) else EnumClash(g, j, i)
  {
  }

  lemma EnumsOneFwd(t: Desc, cand: Desc)
    requires t.info.kind == ENUM && WellFormed(t) && WellFormed(cand) && EnumsCompatible(t, cand) && t != cand
    ensures cand.info.kind == ENUM && FwdLike(t) != FwdLike(cand) && TagOf(t) == TagOf(cand)
  {
  }

  /** `d->map[cand_id] = type_id`: a canonical forward enum is resolved to a full enum. */
  lemma EnumLink(g: Graph, m: IdMap, r: Id, s: Id, entries: multiset<File>)
    requires WfGraph(g) && MapOk(g, false, m) && 0 < r < |g| && s < |g| && TableOk(g, m, entries)
    requires FwdLike(g[r]) && !FwdLike(g[s]) && Same(g, false, r, s)
    ensures MapOk(g, false, m[r := s]) && TableOk(g, m[r := s], entries)
  {
    hide Same, Refs, WellFormed, LinkOk, TableOk;
    MapLink(g, false, m, r, s);
    assert Evolves(g, m, m);
    EvolvesStep(g, m, m, r, s);
    TableEvolves(g, m, m[r := s], entries);
  }

  /** Mapping a struct to its canonical partner, after the merge. */
  lemma AdoptKeeps(g: Graph, exact: bool, m0: IdMap, m: IdMap, i: Id, j: Id, entries: multiset<File>)
    requires WfGraph(g) && |m0| == |g| && MapOk(g, exact, m) && Evolves(g, m0, m) && TableOk(g, m0, entries)
    requires 0 < i < |g| && !Mapped(m0[i]) && IsComposite(g[i].info.kind)
    requires j < |g| && m0[j] == j && IsComposite(g[j].info.kind) && Same(g, exact, i, j)
    ensures MapOk(g, exact, m[i := j]) && Evolves(g, m0, m[i := j]) && TableOk(g, m[i := j], entries)
  {
    hide Same, Refs, WellFormed, LinkOk, TableOk;
    assert m[j] == j && i != j;
    MapStruct(g, exact, m0, m, i, j);
    TableEvolves(g, m0, m[i := j], entries);
  }

  /** What was mapped stays mapped to the same id. */
  ghost predicate MapKept(m: IdMap, m': IdMap) {
    |m'| == |m| && forall i {:trigger m'[i]} {:trigger m[i]} :: 0 <= i < |m| && Mapped(m[i]) ==> m'[i] == m[i]
  }

  /** Forward declarations are resolved by the time the structs are done, or never. */
  lemma ResolvedEarly(g: Graph, m: IdMap, m': IdMap)
    requires |m| == |g| && StructsDone(g, m) && MapKept(m, m') && (|g| > 0 ==> Mapped(m[0]))
    ensures Unresolved(g, m') <==> Unresolved(g, m)
  {
    assert forall i {:trigger m[i]} {:trigger m'[i]} :: 0 <= i < |g| && FwdLike(g[i]) ==> m'[i] == m[i];
  }

  lemma RewrittenKeeps(g0: Graph, exact: bool, g: Graph, i: Id)
    requires WfGraph(g0) && Rewritten(g0, exact, g) && i < |g0|
    ensures |g| == |g0| <= MAX_NR_TYPES + 1 && WellFormed(g[i]) && g[i].info == g0[i].info
  {
    hide Shape, Refs, WellFormed, Same;
    ShapeAndRefs(g[i], g0[i]);
  }

  lemma PrimsEvolve(g: Graph, exact: bool, m: IdMap, m': IdMap)
    requires |m| == |g| && WfGraph(g) && PrimsDone(g, exact, m) && Evolves(g, m, m')
    ensures PrimsDone(g, exact, m')
  {
    hide WellFormed, Refs, EnumClash;
    if Unresolved(g, m') {
      EvolvesResolved(g, m, m');
    }
  }

  /** The two ends of a recorded pair resolve to roots of the same type. */
  lemma MergeFacts(g: Graph, exact: bool, m: IdMap, t: Id, c: Id)
    requires WfGraph(g) && MapOk(g, exact, m) && t < |g| && c < |g| && Same(g, exact, t, c)
    ensures var tId, cId := Resolve(g, m, t), Resolve(g, m, c);
            && Same(g, exact, cId, tId) && Same(g, exact, tId, cId)
            && TagOf(g[tId]) == TagOf(g[cId]) == TagOf(g[t]) == TagOf(g[c])
            && (Mapped(m[tId]) ==> m[tId] == tId) && (Mapped(m[cId]) ==> m[cId] == cId)
  {
    ResolveRoot(g, m, t);
    ResolveRoot(g, m, c);
    ResolveSame(g, exact, m, t);
    ResolveSame(g, exact, m, c);
    assert TagOf(g[Resolve(g, m, t)]) == TagOf(g[Resolve(g, m, c)]);
    hide Same, Resolve, WfMap;
    var tId, cId := Resolve(g, m, t), Resolve(g, m, c);
    SameTransitive(g, exact, t, tId, tId) by { EqualDescsSame(g, exact, tId, tId); }
    SameTransitive(g, exact, tId, t, c);
    SameTransitive(g, exact, tId, c, cId);
  }

  /** In the reference pass a mapped id resolves to a canonical one. */
  lemma MappedResolves(g0: Graph, exact: bool, g: Graph, m: IdMap, i: Id)
    requires WfGraph(g0) && MapOk(g0, exact, m) && Pending(g0, g, m) && i < |g0| && Mapped(m[i])
    ensures Resolve(g0, m, i) < |m| && m[Resolve(g0, m, i)] == Resolve(g0, m, i)
  {
    hide Resolve, Equiv, Coherent, WellFormed, Refs;
    ResolveRoot(g0, m, i);
    ResolveSame(g0, exact, m, i);
    var r := Resolve(g0, m, i);
    assert LinkOk(g0, m, i);
    if FwdLike(g0[i]) {
      assert TagOf(g0[r]) == TagOf(g0[i]);
      assert Mapped(m[r]);
    }
  }

  lemma MergeFactsBoth(g: Graph, exact: bool, plain: bool, m: IdMap, t: Id, c: Id)
    requires WfGraph(g) && MapOk(g, exact, m) && t < |g| && c < |g| && Same(g, exact, t, c)
    requires plain ==> MapOk(g, true, m) && Same(g, true, t, c)
    ensures var tId, cId := Resolve(g, m, t), Resolve(g, m, c);
            && Same(g, exact, cId, tId) && Same(g, exact, tId, cId)
                && (plain ==> Same(g, true, cId, tId) && Same(g, true, tId, cId))
            && TagOf(g[tId]) == TagOf(g[cId]) == TagOf(g[t]) == TagOf(g[c])
            && (Mapped(m[tId]) ==> m[tId] == tId) && (Mapped(m[cId]) ==> m[cId] == cId)
  {
    hide Same, Resolve, WfMap, MapOk;
    MergeFacts(g, exact, m, t, c);
    if plain {
      MergeFacts(g, true, m, t, c);
    }
  }

  /** A write of the merge loop: a forward declaration gets its definition, or an unmapped
      struct its canonical partner. */
  lemma MergeLink(g: Graph, exact: bool, m0: IdMap, m: IdMap, r: Id, s: Id)
    requires WfGraph(g) && MapOk(g, exact, m) && r < |g| && s < |g| && |m0| == |g| && Evolves(g, m0, m)
    requires Same(g, exact, r, s) && TagOf(g[r]) == TagOf(g[s])
    requires g[s].info.kind != FWD
    requires g[r].info.kind == FWD || (IsComposite(g[r].info.kind) && !Mapped(m[r]) && m[s] == s)
    ensures MapOk(g, exact, m[r := s]) && Evolves(g, m0, m[r := s])
    ensures forall t: Id, c: Id {:trigger PairMerged(g, m0, m[r := s], t, c)} ::
              PairMerged(g, m0, m, t, c) ==> PairMerged(g, m0, m[r := s], t, c)
  {
    hide Same, LinkOk, Refs, WellFormed, Evolves, PairMerged;
    assert Linkable(g, m, r, s) && r != 0 && r != s;
    MapLink(g, exact, m, r, s);
    EvolvesStep(g, m0, m, r, s);
    MergedStays(g, m0, m, r, s);
  }

  lemma MergeLinkBoth(g: Graph, exact: bool, plain: bool, m0: IdMap, m: IdMap, r: Id, s: Id)
    requires WfGraph(g) && MapOk(g, exact, m) && (plain ==> MapOk(g, true, m))
    requires r < |g| && s < |g| && |m0| == |g| && Evolves(g, m0, m)
    requires Same(g, exact, r, s) && (plain ==> Same(g, true, r, s)) && TagOf(g[r]) == TagOf(g[s])
    requires g[s].info.kind != FWD
    requires g[r].info.kind == FWD || (IsComposite(g[r].info.kind) && !Mapped(m[r]) && m[s] == s)
    ensures MapOk(g, exact, m[r := s]) && (plain ==> MapOk(g, true, m[r := s])) && Evolves(g, m0, m[r := s])
    ensures forall t: Id, c: Id {:trigger PairMerged(g, m0, m[r := s], t, c)} ::
              PairMerged(g, m0, m, t, c) ==> PairMerged(g, m0, m[r := s], t, c)
  {
    hide Same, LinkOk, Refs, WellFormed, Evolves, PairMerged, MapOk, WfGraph;
    MergeLink(g, exact, m0, m, r, s);
    if plain {
      MergeLink(g, true, m0, m, r, s);
    }
  }

  /** Every pair that a closed map records stands for one type. */
  lemma PairsAgree(g: Graph, exact: bool, m: IdMap, h: Hypot)
    requires WfGraph(g) && MapOk(g, exact, m) && Closed(g, exact, m, h)
    ensures WfHypot(g, h) && forall c {:trigger h[c]} :: 0 <= c < |h| && h[c] != UNPROCESSED ==> Same(g, exact, h[c], c)
  {
    hide Same, EntryOk, WfMap, MapOk, WfGraph;
    forall c {:trigger h[c]} | 0 <= c < |h| && h[c] != UNPROCESSED ensures Same(g, exact, h[c], c) {
      ClosedSame(g, exact, m, h, c);
    }
  }

  lemma EnumPairClashes(g: Graph, exact: bool, t: Id, c: Id)
    requires WfGraph(g) && t < |g| && c < |g| && HeadVerdict(exact, g[t], g[c]) == Leaf
    requires FwdLike(g[t]) != FwdLike(g[c]) && g[t].info.kind != FWD && g[c].info.kind != FWD
    ensures !exact && HasEnumClash(g, |g|)
  {
    hide Refs;
    assert g[t].info.kind == g[c].info.kind == ENUM;
    assert EnumClash(g, t, c) || EnumClash(g, c, t);
  }

  /** With nothing resolved in the end, a merged pair is not of a forward declaration and a
      definition. */
  lemma PairDefinition(g: Graph, exact: bool, m0: IdMap, m: IdMap, h: Hypot, c: Id)
    requires WfGraph(g) && WfMap(g, m0) && Closed(g, exact, m0, h) && c < |h| && h[c] != UNPROCESSED
    requires PairMerged(g, m0, m, h[c], c) && PrimsDone(g, exact, m) && Unresolved(g, m)
    ensures c < |g| && h[c] < |g| && FwdLike(g[h[c]]) == FwdLike(g[c])
  {
    hide Refs, WfMap, Unresolved, Resolve, PrimState, ChildrenOk, EnumsEqual, EqualCommon;
    assert EntryOk(g, exact, m0, h, c);
    var t := h[c];
    VerdictMeaning(exact, g[t], g[c]);
    if FwdLike(g[t]) != FwdLike(g[c]) {
      if g[t].info.kind == FWD {
        UnresolvedStays(g, m, t);
      } else if g[c].info.kind == FWD {
        UnresolvedStays(g, m, c);
      } else {
        EnumPairClashes(g, exact, t, c);
      }
    }
  }

  // ---------------------------------------------------------------- what the input decides

  /** Two structs or unions that agree but for their member types, and that mean the same with
      forward declarations taken for what they announce. */
  ghost predicate Twins(g: Graph, i: Id, j: Id) {
    && WfGraph(g) && i < |g| && j < |g| && i != j && IsComposite(g[i].info.kind)
    && StructsShallowEqual(g[i], g[j]) && Same(g, false, i, j)
  }

  ghost predicate HasTwins(g: Graph) { exists i: Id, j: Id :: Twins(g, i, j) }

  /** Some struct or union is both announced and defined. */
  ghost predicate HasAnnounced(g: Graph) {
    exists f: Id, d: Id :: Announces(g, f, d) && g[f].info.kind == FWD
  }

  /** What can be told from the input, without a run, about whether forward declarations stay as
      they are: with a forward enum and a full one they do not, and without such enums they do
      unless there are twins as well as an announced definition. */
  ghost predicate InputDecides(g: Graph, stay: bool) {
    && (HasEnumClash(g, |g|) ==> !stay)
    && (!HasEnumClash(g, |g|) && !(HasTwins(g) && HasAnnounced(g)) ==> stay)
  }

  /** A round of the merge leaves enums alone. */
  lemma RoundKeepsEnums(g: Graph, m: IdMap, t: Id, c: Id, x: Id)
    requires |m| == |g| && x < |g| && g[x].info.kind == ENUM
    ensures |MergeRound(g, m, t, c)| == |m| && MergeRound(g, m, t, c)[x] == m[x]
  {
    if WfMap(g, m) && t < |g| && c < |g| {
      ResolveRoot(g, m, t);
      ResolveRoot(g, m, c);
    }
    hide WfMap, Resolve;
  }

  lemma {:induction false} RoundsKeepEnums(g: Graph, m: IdMap, h: Hypot, list: seq<Id>, x: Id)
    requires |m| == |g| && x < |g| && g[x].info.kind == ENUM
    ensures |MergeRounds(g, m, h, list)| == |m| && MergeRounds(g, m, h, list)[x] == m[x]
  {
    hide MergeRound;
    if list != [] {
      var n := |list| - 1;
      RoundsKeepEnums(g, m, h, list[..n], x);
      if list[n] < |h| {
        RoundKeepsEnums(g, MergeRounds(g, m, h, list[..n]), h[list[n]], list[n], x);
      }
    }
  }

  lemma DuplicatesAreTwins(g: Graph, m: IdMap, i: Id, j: Id)
    requires WfGraph(g) && MapOk(g, false, m) && i < |g| && Duplicates(g, false, m, i, j) && i != j
    ensures HasTwins(g)
  {
    hide Same, StructsShallowEqual, EntryOk, WfMap;
    var w :| Closed(g, false, m, w) && PairOk(g, m, w, i, j);
    ClosedPairSame(g, false, m, w, i, j);
    assert WellFormed(g[i]) && WellFormed(g[j]);
    assert Twins(g, i, j);
  }

  /** A step of the struct pass leaves forward enums alone, and without twins every forward
      declaration. */
  lemma StepKeepsForward(g: Graph, m: IdMap, i: Id, m': IdMap, x: Id)
    requires StructStep(g, false, m, i, m') && x < |g| == |m| && FwdLike(g[x])
    requires g[x].info.kind == ENUM || !HasTwins(g)
    ensures |m'| == |g| && m'[x] == m[x]
  {
    hide Same, StructsShallowEqual, Closed, PairOk, WfMap, WfGraph, Settles, HasTwins, Duplicates, MergeRounds,
        NoDuplicates;
    if m' != m && m' != m[i := i] {
      var j: Id, h: Hypot, list: seq<Id> :| Adopts(g, false, m, i, j, h, list, m') && Duplicates(g, false, m, i, j);
      if g[x].info.kind == ENUM {
        RoundsKeepEnums(g, m, h, list, x);
      } else {
        assert |g| <= MAX_NR_TYPES + 1 by { GraphSize(g); }
        DuplicatesAreTwins(g, m, i, j);
      }
    }
  }

  lemma {:induction false} PassKeepsForward(g: Graph, ms: seq<IdMap>, k: nat, x: Id)
    requires StructTrace(g, false, ms) && k < |ms| && x < |g| && FwdLike(g[x])
    requires g[x].info.kind == ENUM || !HasTwins(g)
    ensures |ms[0]| == |ms[k]| == |g| && ms[k][x] == ms[0][x]
  {
    hide StructStep, HasTwins, WfGraph, MapOk, HasEnumClash, FwdLike, PrimsUpTo;
    if k > 0 {
      PassKeepsForward(g, ms, k - 1, x);
      StepKeepsForward(g, ms[k - 1], k, ms[k], x);
    }
  }

  /** What the struct pass has resolved was announced by the input. */
  lemma PassDecided(g: Graph, m: IdMap)
    requires StructPass(g, false, m) && WfGraph(g) && MapOk(g, false, m) && PrimsDone(g, false, m)
    ensures InputDecides(g, Unresolved(g, m))
  {
    hide StructTrace, PrimResult, HasTwins, WfGraph, WfMap, HasEnumClash, FwdLike, PrimState, Equiv, Coherent;
    assert |g| > 0 by { GraphSize(g); }
    var ms: seq<IdMap> :| StructTrace(g, false, ms) && |ms| == |g| && ms[|g| - 1] == m;
    if !HasEnumClash(g, |g|) && !(HasTwins(g) && HasAnnounced(g)) {
      forall x {:trigger m[x]} | 0 <= x < |g| && FwdLike(g[x]) && m[x] < |g| ensures FwdLike(g[m[x]]) {
        if g[x].info.kind == ENUM || !HasTwins(g) {
          PassKeepsForward(g, ms, |g| - 1, x);
          PrimsUnresolved(g, ms);
          assert ms[0][x] == m[x];
        } else {
          ForwardKind(g[x]);
          assert Mapped(m[x]) by { FitsMap(g, m, x); }
          assert TagOf(g[x]) == TagOf(g[m[x]]);
          assert !Announces(g, x, m[x]);
        }
      }
    }
  }

  lemma ForwardKind(d: Desc)
    requires FwdLike(d)
    ensures d.info.kind == FWD || d.info.kind == ENUM
  {
  }

  lemma FitsMap(g: Graph, m: IdMap, x: Id)
    requires WfGraph(g) && x < |m| && m[x] < |g|
    ensures Mapped(m[x])
  {
  }

  lemma PrimsUnresolved(g: Graph, ms: seq<IdMap>)
    requires StructTrace(g, false, ms) && !HasEnumClash(g, |g|)
    ensures Unresolved(g, ms[0])
  {
    hide StructStep, WfGraph, MapOk, HasEnumClash, FwdLike, PrimsUpTo, PrimsDone;
  }
}
