/** The specification of `btf_dedup_is_equiv`: which pairs of descriptors match, and when a
    hypothetical map from canonical ids to candidate ids is a proof that two graphs agree. */
module Equivalence {
  import opened BtfTypes
  import opened TypeGraph
  import opened CanonMap

  /** How far a look at two descriptors alone gets: a mismatch, an invalid kind, agreement
      with nothing further to check, or agreement if the children agree. */
  datatype Verdict = Mismatch | Invalid | Leaf | Descend

  function When(ok: bool, v: Verdict): Verdict { if ok then v else Mismatch }

  function HeadVerdict(exact: bool, cand: Desc, canon: Desc): Verdict
    requires WellFormed(cand) && WellFormed(canon)
  {
    var ck, nk := cand.info.kind, canon.info.kind;
    if cand.name != canon.name then Mismatch
    else if !exact && (ck == FWD || nk == FWD) && ck != nk then
      When(if ck == FWD then FwdKind(cand) == nk else FwdKind(canon) == ck, Leaf)
    else if ck != nk then Mismatch
    else if ck == INT then When(EqualInt(cand, canon), Leaf)
    else if ck == ENUM then When(if exact then EnumsEqual(cand, canon) else EnumsCompatible(cand, canon), Leaf)
    else if ck == FWD then When(EqualCommon(cand, canon), Leaf)
    else if IsLink(ck) then When(cand.info == canon.info, Descend)
    else if ck == ARRAY then When(CompatArray(cand, canon), Descend)
    else if IsComposite(ck) then When(StructsShallowEqual(cand, canon), Descend)
    else if ck == FUNC_PROTO then When(FnProtosCompatible(cand, canon), Descend)
    else Invalid
  }

  /** Matching heads carry the same tag. Where children decide they have the same shape; a leaf is
      the same descriptor, or a forward declaration and a definition. */
  lemma VerdictMeaning(exact: bool, cand: Desc, canon: Desc)
    requires WellFormed(cand) && WellFormed(canon)
    ensures var v := HeadVerdict(exact, cand, canon);
            && (v == Descend ==>
                Shape(cand) == Shape(canon) && |Refs(cand)| == |Refs(canon)| && !FwdLike(cand)
                && !FwdLike(canon))
            && (v == Descend || v == Leaf ==> TagOf(cand) == TagOf(canon))
            && (v == Leaf ==> cand == canon || (!exact && FwdLike(cand) != FwdLike(canon)))
  {
    var v := HeadVerdict(exact, cand, canon);
    if v == Descend {
      DescendSameShape(exact, cand, canon);
    }
  }

  lemma DescendSameShape(exact: bool, cand: Desc, canon: Desc)
    requires WellFormed(cand) && WellFormed(canon) && HeadVerdict(exact, cand, canon) == Descend
    ensures |Refs(cand)| == |Refs(canon)| && Shape(cand) == Shape(canon)
    ensures cand.info == canon.info && cand.name == canon.name
  {
    if IsComposite(cand.info.kind) {
      SameMembers(cand.data.members, canon.data.members);
    } else if cand.info.kind == FUNC_PROTO {
      SameParams(cand.data.params, canon.data.params);
    }
    hide WithDataRefs, DataRefs;
    WithDataRefsZeros(cand.data, canon.data);
  }

  /** The shape of the data that follows a descriptor. */
  function DataShape(data: Data): Data { WithDataRefs(data, Zeros(|DataRefs(data)|)) }

  lemma WithDataRefsZeros(d: Data, e: Data)
    ensures DataShape(d) == DataShape(e) ==> |DataRefs(d)| == |DataRefs(e)|
    ensures forall n: nat :: n > 0 ==> Zeros(n)[1..] == Zeros(n - 1)
  {
    WithDataRefsLaws(d, Zeros(|DataRefs(d)|));
    WithDataRefsLaws(e, Zeros(|DataRefs(e)|));
  }

  lemma SameMembers(a: seq<Member>, b: seq<Member>)
    requires |a| == |b| && forall i {:trigger a[i]} :: 0 <= i < |a| ==>
        a[i].name == b[i].name && a[i].offset == b[i].offset
    ensures DataShape(Members(a)) == DataShape(Members(b))
  {
    assert forall i {:trigger a[i]} :: 0 <= i < |a| ==> a[i].(ty := 0) == b[i].(ty := 0);
  }

  lemma SameParams(a: seq<Param>, b: seq<Param>)
    requires |a| == |b| && forall i {:trigger a[i]} :: 0 <= i < |a| ==> a[i].name == b[i].name
    ensures DataShape(Params(a)) == DataShape(Params(b))
  {
    assert forall i {:trigger a[i]} :: 0 <= i < |a| ==> a[i].(ty := 0) == b[i].(ty := 0);
  }

  // ---------------------------------------------------------------- hypothetical maps

  /** `hypot_map`: at a canonical-side id, the candidate-side id it was paired with. */
  type Hypot = seq<nat>

  ghost predicate WfHypot(g: Graph, h: Hypot) {
    && |h| == |g|
    && forall c {:trigger h[c]} :: 0 <= c < |g| ==> h[c] == UNPROCESSED || h[c] < |g|
  }

  /** The pair needs no further check: one canonical id, or assumed equivalent already. */
  ghost predicate PairOk(g: Graph, m: IdMap, h: Hypot, cand: Id, canon: Id)
    requires WfMap(g, m) && |h| == |g| && cand < |g| && canon < |g|
  {
    Resolve(g, m, cand) == Resolve(g, m, canon) || h[ResolveFwd(g, m, canon)] == cand
  }

  /** The pair recorded at `c` matches, and so does every pair of its children. */
  ghost predicate EntryOk(g: Graph, exact: bool, m: IdMap, h: Hypot, c: Id)
    requires WfGraph(g) && WfMap(g, m) && WfHypot(g, h) && c < |g| && h[c] != UNPROCESSED
  {
    var v := HeadVerdict(exact, g[h[c]], g[c]);
    v == Leaf || (v == Descend && ChildrenOk(g, m, h, Refs(g[h[c]]), Refs(g[c])))
  }

  ghost predicate ChildrenOk(g: Graph, m: IdMap, h: Hypot, cands: seq<Id>, canons: seq<Id>)
    requires WfMap(g, m) && |h| == |g|
  {
    && |cands| == |canons|
    && forall k {:trigger cands[k]} {:trigger canons[k]} :: 0 <= k < |cands| ==>
        cands[k] < |g| && canons[k] < |g| && PairOk(g, m, h, cands[k], canons[k])
  }

  /** No recorded pair has an open obligation. */
  ghost predicate Closed(g: Graph, exact: bool, m: IdMap, h: Hypot)
    requires WfGraph(g) && WfMap(g, m)
  {
    && WfHypot(g, h)
    && forall c {:trigger h[c]} :: 0 <= c < |g| && h[c] != UNPROCESSED ==> EntryOk(g, exact, m, h, c)
  }

  // ---------------------------------------------------------------- what is accepted

  /** Two descriptors of one kind that differ in nothing but the type ids they hold. */
  predicate AlikeButIds(d: Desc, e: Desc) {
    && d.name == e.name && d.info == e.info
    && (d.info.kind in {CONST, VOLATILE, RESTRICT, PTR, TYPEDEF, FUNC, FUNC_PROTO} || d.word == e.word)
    && match d.data
       case ArrayData(_, _, nelems) => e.data.ArrayData? && e.data.nelems == nelems
       case Members(ms) =>
         && e.data.Members? && |e.data.members| == |ms|
         && forall k {:trigger ms[k]} :: 0 <= k < |ms| ==>
              e.data.members[k].name == ms[k].name && e.data.members[k].offset == ms[k].offset
       case Params(ps) =>
         && e.data.Params? && |e.data.params| == |ps|
         && forall k {:trigger ps[k]} :: 0 <= k < |ps| ==> e.data.params[k].name == ps[k].name
       case _ => e.data == d.data
  }

  /** Two children agree: they resolve to one id, or the pair is recorded, at the definition if
      the canonical child is a forward declaration that was resolved. */
  ghost predicate ChildAgrees(g: Graph, m: IdMap, h: Hypot, cand: Id, canon: Id)
    requires WfMap(g, m) && |h| == |g|
  {
    && cand < |g| && canon < |g|
    && var r := Resolve(g, m, canon);
       || Resolve(g, m, cand) == r
       || h[if g[canon].info.kind == FWD && g[r].info.kind != FWD then r else canon] == cand
  }

  /** The children of two descriptors agree, field by field. */
  ghost predicate ChildrenAgree(g: Graph, m: IdMap, h: Hypot, d: Desc, e: Desc)
    requires WfMap(g, m) && |h| == |g| && AlikeButIds(d, e)
  {
    && (d.info.kind in {CONST, VOLATILE, RESTRICT, PTR, TYPEDEF, FUNC, FUNC_PROTO} ==>
          ChildAgrees(g, m, h, d.word, e.word))
    && match d.data
       case ArrayData(elem, index, _) =>
         ChildAgrees(g, m, h, elem, e.data.elem) && ChildAgrees(g, m, h, index, e.data.index)
       case Members(ms) =>
         forall k {:trigger ms[k]} :: 0 <= k < |ms| ==> ChildAgrees(g, m, h, ms[k].ty, e.data.members[k].ty)
       case Params(ps) =>
         forall k {:trigger ps[k]} :: 0 <= k < |ps| ==> ChildAgrees(g, m, h, ps[k].ty, e.data.params[k].ty)
       case _ => true
  }

  /** A forward declaration and a composite of the kind and the name it announces. */
  predicate AnnouncedBy(fwd: Desc, d: Desc) {
    fwd.info.kind == FWD && d.info.kind == (if fwd.info.kflag then UNION else STRUCT) && fwd.name == d.name
  }

  /** A forward enum and an enum of its name and size. */
  predicate EnumAnnounced(fwd: Desc, d: Desc) {
    && fwd.info.kind == ENUM && fwd.info.vlen == 0 && d.info.kind == ENUM
    && fwd.name == d.name && fwd.word == d.word
    && fwd.info.kflag == d.info.kflag && fwd.info.unused == d.info.unused
  }

  /** What a recorded pair must be, by kinds and fields: of a kind that is deduplicated, alike but
      for type ids, and with children that agree; or, with forward resolution, a forward
      declaration or forward enum and what it announces. */
  ghost predicate Agrees(g: Graph, exact: bool, m: IdMap, h: Hypot, cand: Id, canon: Id)
    requires WfMap(g, m) && |h| == |g| && cand < |g| && canon < |g|
  {
    var d, e := g[cand], g[canon];
    || (d.info.kind !in {VOID, VAR, DATASEC} && AlikeButIds(d, e) && ChildrenAgree(g, m, h, d, e))
    || (!exact && (AnnouncedBy(d, e) || AnnouncedBy(e, d) || EnumAnnounced(d, e) || EnumAnnounced(e, d)))
  }

  /** A hypothetical map all of whose pairs agree. */
  ghost predicate Agreement(g: Graph, exact: bool, m: IdMap, h: Hypot)
    requires WfMap(g, m)
  {
    && WfHypot(g, h)
    && forall c {:trigger h[c]} :: 0 <= c < |g| && h[c] != UNPROCESSED ==> Agrees(g, exact, m, h, h[c], c)
  }

  /** The look at two descriptors accepts exactly these pairs, and refuses as invalid exactly two
      descriptors of a kind that no struct may hold. */
  lemma HeadExactly(exact: bool, d: Desc, e: Desc)
    requires WellFormed(d) && WellFormed(e)
    ensures HeadVerdict(exact, d, e) == Descend <==>
              d.info.kind !in {VOID, VAR, DATASEC, INT, ENUM, FWD} && AlikeButIds(d, e)
    ensures HeadVerdict(exact, d, e) == Leaf <==>
              || (d.info.kind in {INT, ENUM, FWD} && AlikeButIds(d, e))
              || (!exact && (AnnouncedBy(d, e) || AnnouncedBy(e, d) || EnumAnnounced(d, e) || EnumAnnounced(e, d)))
    ensures HeadVerdict(exact, d, e) == Invalid <==>
              d.name == e.name && d.info.kind == e.info.kind && d.info.kind in {VOID, VAR, DATASEC}
  {
  }

  lemma ChildExactly(g: Graph, m: IdMap, h: Hypot, cand: Id, canon: Id)
    requires WfMap(g, m) && |h| == |g|
    ensures cand < |g| && canon < |g| && PairOk(g, m, h, cand, canon) <==> ChildAgrees(g, m, h, cand, canon)
  {
  }

  /** A reference pair by pair, and the rest. */
  lemma ChildrenAt(g: Graph, m: IdMap, h: Hypot, cands: seq<Id>, canons: seq<Id>)
    requires WfMap(g, m) && |h| == |g| && |cands| == |canons|
    ensures ChildrenOk(g, m, h, cands, canons) <==>
              forall k {:trigger cands[k]} :: 0 <= k < |cands| ==> ChildAgrees(g, m, h, cands[k], canons[k])
  {
    hide PairOk, ChildAgrees, WfMap;
    if ChildrenOk(g, m, h, cands, canons) {
      forall k {:trigger cands[k]} | 0 <= k < |cands| ensures ChildAgrees(g, m, h, cands[k], canons[k]) {
        ChildExactly(g, m, h, cands[k], canons[k]);
      }
    }
    if forall k {:trigger cands[k]} :: 0 <= k < |cands| ==> ChildAgrees(g, m, h, cands[k], canons[k]) {
      forall k {:trigger cands[k]} {:trigger canons[k]} | 0 <= k < |cands|
        ensures cands[k] < |g| && canons[k] < |g| && PairOk(g, m, h, cands[k], canons[k])
      {
        ChildExactly(g, m, h, cands[k], canons[k]);
        assert ChildAgrees(g, m, h, cands[k], canons[k]);
      }
    }
  }

  /** The list of references holds the type ids of the fields. */
  lemma ChildrenExactly(g: Graph, m: IdMap, h: Hypot, d: Desc, e: Desc)
    requires WfMap(g, m) && |h| == |g| && WellFormed(d) && WellFormed(e) && AlikeButIds(d, e)
    requires d.info.kind !in {VOID, VAR, DATASEC}
    ensures ChildrenOk(g, m, h, Refs(d), Refs(e)) <==> ChildrenAgree(g, m, h, d, e)
  {
    hide PairOk, ChildAgrees, WfMap, ChildrenOk;
    if d.info.kind == ARRAY {
      assert Refs(d) == [d.data.index, d.data.elem] && Refs(e) == [e.data.index, e.data.elem];
      TwoChildren(g, m, h, d, e);
    } else if d.data.Members? {
      MembersExactly(g, m, h, d, e);
    } else if d.data.Params? {
      ParamsExactly(g, m, h, d, e);
    } else {
      LinkExactly(g, m, h, d, e);
    }
  }

  lemma TwoChildren(g: Graph, m: IdMap, h: Hypot, d: Desc, e: Desc)
    requires WfMap(g, m) && |h| == |g| && d.info.kind == ARRAY == e.info.kind && AlikeButIds(d, e)
    requires d.data.ArrayData? && Refs(d) == [d.data.index, d.data.elem] && Refs(e) == [e.data.index, e.data.elem]
    ensures ChildrenOk(g, m, h, Refs(d), Refs(e)) <==> ChildrenAgree(g, m, h, d, e)
  {
    hide PairOk, ChildAgrees, WfMap, ChildrenOk, Refs;
    ChildrenAt(g, m, h, Refs(d), Refs(e));
    assert Refs(d)[0] == d.data.index && Refs(d)[1] == d.data.elem;
  }

  lemma MembersExactly(g: Graph, m: IdMap, h: Hypot, d: Desc, e: Desc)
    requires WfMap(g, m) && |h| == |g| && AlikeButIds(d, e) && d.data.Members? && IsComposite(d.info.kind)
    ensures ChildrenOk(g, m, h, Refs(d), Refs(e)) <==> ChildrenAgree(g, m, h, d, e)
  {
    var ms, ns := d.data.members, e.data.members;
    assert |Refs(d)| == |ms| == |Refs(e)|;
    forall k {:trigger ms[k]} | 0 <= k < |ms| ensures Refs(d)[k] == ms[k].ty && Refs(e)[k] == ns[k].ty {
    }
    hide PairOk, ChildAgrees, WfMap, ChildrenOk, Refs;
    ChildrenAt(g, m, h, Refs(d), Refs(e));
    assert forall k {:trigger Refs(d)[k]} :: 0 <= k < |ms| ==> Refs(d)[k] == ms[k].ty;
  }

  lemma ParamsExactly(g: Graph, m: IdMap, h: Hypot, d: Desc, e: Desc)
    requires WfMap(g, m) && |h| == |g| && AlikeButIds(d, e) && d.data.Params? && d.info.kind == FUNC_PROTO
    ensures ChildrenOk(g, m, h, Refs(d), Refs(e)) <==> ChildrenAgree(g, m, h, d, e)
  {
    var ps, qs := d.data.params, e.data.params;
    assert |Refs(d)| == |ps| + 1 == |Refs(e)| && Refs(d)[0] == d.word && Refs(e)[0] == e.word;
    forall k {:trigger ps[k]} | 0 <= k < |ps| ensures Refs(d)[k + 1] == ps[k].ty && Refs(e)[k + 1] == qs[k].ty {
    }
    hide PairOk, ChildAgrees, WfMap, ChildrenOk, Refs;
    ChildrenAt(g, m, h, Refs(d), Refs(e));
    assert forall k {:trigger Refs(d)[k]} :: 0 < k < |Refs(d)| ==>
        Refs(d)[k] == ps[k - 1].ty && Refs(e)[k] == qs[k - 1].ty;
  }

  lemma LinkExactly(g: Graph, m: IdMap, h: Hypot, d: Desc, e: Desc)
    requires WfMap(g, m) && |h| == |g| && WellFormed(d) && AlikeButIds(d, e)
    requires d.info.kind !in {VOID, VAR, DATASEC, ARRAY, STRUCT, UNION, FUNC_PROTO}
    ensures ChildrenOk(g, m, h, Refs(d), Refs(e)) <==> ChildrenAgree(g, m, h, d, e)
  {
    hide PairOk, ChildAgrees, WfMap, ChildrenOk;
    ChildrenAt(g, m, h, Refs(d), Refs(e));
    if d.info.kind !in {INT, ENUM, FWD} {
      assert Refs(d)[0] == d.word && |Refs(d)| == 1 == |Refs(e)|;
    }
  }

  /** The maps that settle every pair are those in which every pair agrees. */
  lemma AgreementExactly(g: Graph, exact: bool, m: IdMap, h: Hypot)
    requires WfGraph(g) && WfMap(g, m)
    ensures Closed(g, exact, m, h) <==> Agreement(g, exact, m, h)
  {
    hide HeadVerdict, Refs, ChildrenOk, ChildrenAgree, AlikeButIds, WfMap, WellFormed, AnnouncedBy, EnumAnnounced;
    if WfHypot(g, h) {
      forall c {:trigger h[c]} | 0 <= c < |g| && h[c] != UNPROCESSED
        ensures EntryOk(g, exact, m, h, c) <==> Agrees(g, exact, m, h, h[c], c)
      {
        PairExactly(g, exact, m, h, h[c], c);
      }
    }
  }

  lemma PairExactly(g: Graph, exact: bool, m: IdMap, h: Hypot, cand: Id, canon: Id)
    requires WfGraph(g) && WfMap(g, m) && WfHypot(g, h) && cand < |g| && canon < |g| && h[canon] == cand != UNPROCESSED
    ensures EntryOk(g, exact, m, h, canon) <==> Agrees(g, exact, m, h, cand, canon)
  {
    var d, e := g[cand], g[canon];
    assert WellFormed(d) && WellFormed(e);
    HeadExactly(exact, d, e);
    if AlikeButIds(d, e) && d.info.kind !in {VOID, VAR, DATASEC} {
      ChildrenExactly(g, m, h, d, e);
      if d.info.kind in {INT, ENUM, FWD} {
        NoChildren(g, m, h, d, e);
      }
    }
    hide HeadVerdict, Refs, ChildrenOk, ChildrenAgree, AlikeButIds, WfMap, WellFormed, AnnouncedBy, EnumAnnounced;
  }

  lemma NoChildren(g: Graph, m: IdMap, h: Hypot, d: Desc, e: Desc)
    requires WfMap(g, m) && |h| == |g| && WellFormed(d) && AlikeButIds(d, e) && d.info.kind in {INT, ENUM, FWD}
    ensures ChildrenAgree(g, m, h, d, e)
  {
  }

  /** `h'` records everything `h` does. */
  ghost predicate Extends(h: Hypot, h': Hypot) {
    |h'| == |h| && forall c {:trigger h[c]} {:trigger h'[c]} :: 0 <= c < |h| && h[c] != UNPROCESSED ==> h'[c] == h[c]
  }

  lemma PairOkMonotone(g: Graph, m: IdMap, h: Hypot, h': Hypot, cand: Id, canon: Id)
    requires WfMap(g, m) && |h| == |g| && cand < |g| <= MAX_NR_TYPES + 1 && canon < |g| && Extends(h, h')
    requires PairOk(g, m, h, cand, canon)
    ensures PairOk(g, m, h', cand, canon)
  {
  }

  lemma EntryOkMonotone(g: Graph, exact: bool, m: IdMap, h: Hypot, h': Hypot, c: Id)
    requires WfGraph(g) && WfMap(g, m) && WfHypot(g, h) && WfHypot(g, h') && c < |g| && h[c] != UNPROCESSED
    requires Extends(h, h') && EntryOk(g, exact, m, h, c)
    ensures EntryOk(g, exact, m, h', c)
  {
    hide HeadVerdict, Resolve, ResolveFwd, Refs;
    if HeadVerdict(exact, g[h[c]], g[c]) == Descend {
      ChildrenMonotone(g, m, h, h', Refs(g[h[c]]), Refs(g[c]));
    }
  }

  lemma ChildrenMonotone(g: Graph, m: IdMap, h: Hypot, h': Hypot, cands: seq<Id>, canons: seq<Id>)
    requires WfMap(g, m) && |h| == |g| && Extends(h, h') && ChildrenOk(g, m, h, cands, canons)
    ensures ChildrenOk(g, m, h', cands, canons)
  {
    hide Resolve, ResolveFwd;
    forall k | 0 <= k < |cands| ensures PairOk(g, m, h', cands[k], canons[k]) {
      PairOkMonotone(g, m, h, h', cands[k], canons[k]);
    }
  }

  /** The bisimulation argument: in a closed map every recorded pair unfolds alike to every
      depth, in every reading that is kept. */
  lemma {:induction false} ClosedUnfold(g: Graph, exact: bool, r: Reading, m: IdMap, h: Hypot, c: Id, n: nat)
    requires WfGraph(g) && Coherent(g, exact, r) && MapOk(g, exact, m) && Closed(g, exact, m, h) && c < |g|
        && h[c] != UNPROCESSED
    ensures Unfold(g, r, h[c], n) == Unfold(g, r, c, n)
    decreases n, 0
  {
    hide HeadVerdict, Refs, Shape, Unfold, Resolve, ResolveFwd, FwdLike, TagOf;
    assert EntryOk(g, exact, m, h, c);
    VerdictMeaning(exact, g[h[c]], g[c]);
    if HeadVerdict(exact, g[h[c]], g[c]) == Leaf {
      LeafUnfold(g, exact, r, h[c], c, n);
    } else if n > 0 {
      forall k | 0 <= k < |Refs(g[c])|
        ensures Unfold(g, r, Refs(g[h[c]])[k], n - 1) == Unfold(g, r, Refs(g[c])[k], n - 1)
      {
        assert PairOk(g, m, h, Refs(g[h[c]])[k], Refs(g[c])[k]);
        PairUnfold(g, exact, r, m, h, Refs(g[h[c]])[k], Refs(g[c])[k], n - 1);
      }
      UnfoldStep(g, r, h[c], g, r, c, n - 1);
    } else {
      UnfoldZero(g, r, h[c], c);
    }
  }

  lemma LeafUnfold(g: Graph, exact: bool, r: Reading, a: Id, b: Id, n: nat)
    requires WfGraph(g) && Coherent(g, exact, r) && a < |g| && b < |g|
    requires TagOf(g[a]) == TagOf(g[b]) && (g[a] == g[b] || (!exact && FwdLike(g[a]) != FwdLike(g[b])))
    ensures Unfold(g, r, a, n) == Unfold(g, r, b, n)
  {
    hide Unfold, FwdLike, TagOf;
    if g[a] == g[b] {
      EqualDescsSame(g, exact, a, b);
    } else {
      assert Announces(g, a, b) || Announces(g, b, a);
    }
  }

  lemma UnfoldZero(g: Graph, r: Reading, a: Id, b: Id)
    requires WfGraph(g) && WfReading(g, r) && a < |g| && b < |g|
    ensures Unfold(g, r, a, 0) == Unfold(g, r, b, 0)
  {
  }

  lemma {:induction false} PairUnfold(g: Graph, exact: bool, r: Reading, m: IdMap, h: Hypot, cand: Id, canon: Id,
      n: nat)
    requires WfGraph(g) && Coherent(g, exact, r) && MapOk(g, exact, m) && Closed(g, exact, m, h) && cand < |g|
        && canon < |g|
    requires PairOk(g, m, h, cand, canon)
    ensures Unfold(g, r, cand, n) == Unfold(g, r, canon, n)
    decreases n, 1
  {
    hide Unfold, Resolve, ResolveFwd, EntryOk, Refs, HeadVerdict;
    var f := ResolveFwd(g, m, canon);
    if Resolve(g, m, cand) == Resolve(g, m, canon) {
      BothResolveSame(g, exact, m, cand, canon);
    } else {
      ResolveFwdSame(g, exact, m, canon);
      ClosedUnfold(g, exact, r, m, h, f, n);
    }
  }

  /** A closed map pairs types that are the same. */
  lemma ClosedSame(g: Graph, exact: bool, m: IdMap, h: Hypot, c: Id)
    requires WfGraph(g) && MapOk(g, exact, m) && Closed(g, exact, m, h) && c < |g| && h[c] != UNPROCESSED
    ensures Same(g, exact, h[c], c)
  {
    hide HeadVerdict, Refs, Unfold, Resolve, ResolveFwd, FwdLike, TagOf;
    assert EntryOk(g, exact, m, h, c);
    VerdictMeaning(exact, g[h[c]], g[c]);
    forall r | Coherent(g, exact, r) ensures Equiv(g, r, h[c], c) {
      forall n: nat ensures Unfold(g, r, h[c], n) == Unfold(g, r, c, n) {
        ClosedUnfold(g, exact, r, m, h, c, n);
      }
    }
  }

  /** A pair settled by a closed map stands for one type. */
  lemma ClosedPairSame(g: Graph, exact: bool, m: IdMap, h: Hypot, cand: Id, canon: Id)
    requires WfGraph(g) && MapOk(g, exact, m) && Closed(g, exact, m, h) && cand < |g| && canon < |g|
    requires PairOk(g, m, h, cand, canon)
    ensures Same(g, exact, cand, canon)
  {
    hide HeadVerdict, Refs, Same, Resolve, ResolveFwd, EntryOk;
    if Resolve(g, m, cand) == Resolve(g, m, canon) {
      BothResolveSame(g, exact, m, cand, canon);
    } else {
      var f := ResolveFwd(g, m, canon);
      ClosedSame(g, exact, m, h, f);
      ResolveFwdSame(g, exact, m, canon);
      SameTransitive(g, exact, canon, f, f) by { EqualDescsSame(g, exact, f, f); }
      SameTransitive(g, exact, cand, f, canon);
    }
  }

  // ---------------------------------------------------------------- nothing was resolved

  /** Without forward declarations among its pairs, a map that is closed with forward resolution
      is closed without. */
  ghost predicate PairsDefinitions(g: Graph, h: Hypot) {
    forall c {:trigger h[c]} :: 0 <= c < |h| && h[c] != UNPROCESSED ==>
        c < |g| && h[c] < |g| && FwdLike(g[h[c]]) == FwdLike(g[c])
  }

  lemma ClosedExactly(g: Graph, exact: bool, m: IdMap, h: Hypot)
    requires WfGraph(g) && WfMap(g, m) && Closed(g, exact, m, h) && PairsDefinitions(g, h)
    ensures Closed(g, true, m, h)
  {
    hide HeadVerdict, Refs, ChildrenOk, FwdLike, WfMap, WellFormed;
    forall c {:trigger h[c]} | 0 <= c < |g| && h[c] != UNPROCESSED ensures EntryOk(g, true, m, h, c) {
      assert EntryOk(g, exact, m, h, c);
      assert WellFormed(g[c]) && WellFormed(g[h[c]]);
      VerdictExactly(exact, g[h[c]], g[c]);
    }
  }

  lemma VerdictExactly(exact: bool, cand: Desc, canon: Desc)
    requires WellFormed(cand) && WellFormed(canon) && FwdLike(cand) == FwdLike(canon)
    ensures HeadVerdict(true, cand, canon) == HeadVerdict(exact, cand, canon)
  {
  }
}
