/** Copies of types as compilation units bring them: with the same strings, not the same string
    offsets. Once strings are deduplicated they are copies of each other. */
module NamedCopies {
  import opened Basics
  import opened BtfTypes
  import opened TypeGraph
  import opened CanonMap
  import opened Equivalence
  import opened Strings
  import opened StringDedup
  import opened Copies

  /** Two descriptors of one kind that differ in nothing but type ids and string offsets, and whose
      names are the same strings. */
  predicate AlikeNamed(sec: seq<Octet>, d: Desc, e: Desc) {
    && NameAt(sec, d.name) == NameAt(sec, e.name) && d.info == e.info
    && (d.info.kind in {CONST, VOLATILE, RESTRICT, PTR, TYPEDEF, FUNC, FUNC_PROTO} || d.word == e.word)
    && match d.data
       case ArrayData(_, _, nelems) => e.data.ArrayData? && e.data.nelems == nelems
       case Members(ms) =>
         && e.data.Members? && |e.data.members| == |ms|
         && forall k {:trigger ms[k]} :: 0 <= k < |ms| ==>
              var m := e.data.members[k];
              NameAt(sec, m.name) == NameAt(sec, ms[k].name) && m.offset == ms[k].offset
       case Enumerators(es) =>
         && e.data.Enumerators? && |e.data.enumerators| == |es|
         && forall k {:trigger es[k]} :: 0 <= k < |es| ==>
              var q := e.data.enumerators[k];
              NameAt(sec, q.name) == NameAt(sec, es[k].name) && q.val == es[k].val
       case Params(ps) =>
         && e.data.Params? && |e.data.params| == |ps|
         && forall k {:trigger ps[k]} :: 0 <= k < |ps| ==>
              NameAt(sec, e.data.params[k].name) == NameAt(sec, ps[k].name)
       case _ => e.data == d.data
  }

  /** The same type, or its copy. */
  predicate CopiedId(h: Hypot, cand: Id, canon: Id) {
    cand < |h| && canon < |h| && (cand == canon || h[canon] == cand)
  }

  /** The type ids of one descriptor are copies of those of the other one, field by field. */
  predicate FieldsCopied(h: Hypot, d: Desc, e: Desc) {
    && (d.info.kind in {CONST, VOLATILE, RESTRICT, PTR, TYPEDEF, FUNC, FUNC_PROTO} ==> CopiedId(h, d.word, e.word))
    && match d.data
       case ArrayData(elem, index, _) =>
         e.data.ArrayData? && CopiedId(h, elem, e.data.elem) && CopiedId(h, index, e.data.index)
       case Members(ms) =>
         && e.data.Members? && |e.data.members| == |ms|
         && forall k {:trigger ms[k]} :: 0 <= k < |ms| ==> CopiedId(h, ms[k].ty, e.data.members[k].ty)
       case Params(ps) =>
         && e.data.Params? && |e.data.params| == |ps|
         && forall k {:trigger ps[k]} :: 0 <= k < |ps| ==> CopiedId(h, ps[k].ty, e.data.params[k].ty)
       case _ => true
  }

  /** `h` takes types to copies of theirs, names compared as strings. */
  ghost predicate AreNamedCopies(sec: seq<Octet>, g: Graph, h: Hypot) {
    && WfHypot(g, h) && Injective(h)
    && forall c {:trigger h[c]} :: 0 <= c < |g| && h[c] != UNPROCESSED ==>
         && g[c].info.kind !in {VOID, VAR, DATASEC}
         && AlikeNamed(sec, g[h[c]], g[c]) && FieldsCopied(h, g[h[c]], g[c])
  }

  ghost predicate IsNamedCopy(sec: seq<Octet>, g: Graph, a: Id, b: Id) {
    exists h: Hypot :: AreNamedCopies(sec, g, h) && a < |h| && h[a] == b
  }

  /** All structs that are alike but for their type ids are copies of each other. */
  ghost predicate OneNamedFamily(sec: seq<Octet>, g: Graph, x: Id) {
    forall a: Id, b: Id {:trigger IsNamedCopy(sec, g, a, b)} ::
      x < |g| && a < |g| && b < |g| && a != b && AlikeNamed(sec, g[a], g[x]) && AlikeNamed(sec, g[b], g[x]) ==>
        IsNamedCopy(sec, g, a, b)
  }

  ghost predicate OnlyNamedCopies(sec: seq<Octet>, g: Graph, h: Hypot) {
    forall c: Id {:trigger h[c]} :: c < |h| && c < |g| && h[c] < |g| && g[c].info.kind in {STRUCT, UNION} ==>
      OneNamedFamily(sec, g, c)
  }

  // ---------------------------------------------------------------- renaming

  lemma MovedOnce(sec: seq<Octet>, es: seq<seq<Octet>>, a: nat, a': nat, b: nat, b': nat)
    requires Ascending(es) && Moved(sec, es, a, a') && Moved(sec, es, b, b')
    ensures a' == b' <==> NameAt(sec, a) == NameAt(sec, b)
  {
    MovedMeaning(sec, es, a, a', b, b');
    MovedMeaning(sec, es, b, b', a, a');
    MovedInSection(sec, es, a, a');
    MovedInSection(sec, es, b, b');
    hide Moved, Join, Ascending, Str;
  }

  /** What rewriting the offsets of a descriptor does, field by field. */
  ghost predicate FieldsMoved(sec: seq<Octet>, es: seq<seq<Octet>>, d: Desc, d': Desc) {
    && d'.info == d.info && d'.word == d.word && Moved(sec, es, d.name, d'.name)
    && match d.data
       case Members(ms) =>
         && d'.data.Members? && |d'.data.members| == |ms|
         && forall k {:trigger ms[k]} {:trigger d'.data.members[k]} :: 0 <= k < |ms| ==>
              var m := d'.data.members[k];
              Moved(sec, es, ms[k].name, m.name) && m.ty == ms[k].ty && m.offset == ms[k].offset
       case Enumerators(qs) =>
         && d'.data.Enumerators? && |d'.data.enumerators| == |qs|
         && forall k {:trigger qs[k]} {:trigger d'.data.enumerators[k]} :: 0 <= k < |qs| ==>
              var q := d'.data.enumerators[k]; Moved(sec, es, qs[k].name, q.name) && q.val == qs[k].val
       case Params(ps) =>
         && d'.data.Params? && |d'.data.params| == |ps|
         && forall k {:trigger ps[k]} {:trigger d'.data.params[k]} :: 0 <= k < |ps| ==>
              var q := d'.data.params[k]; Moved(sec, es, ps[k].name, q.name) && q.ty == ps[k].ty
       case _ => d'.data == d.data
  }

  lemma MovedByField(sec: seq<Octet>, es: seq<seq<Octet>>, d: Desc, d': Desc)
    requires MovedDesc(sec, es, d, d')
    ensures FieldsMoved(sec, es, d, d')
  {
    hide Moved, Names, WithNames;
    var ns, ns' := Names(d), Names(d');
    WithNamesAt(d, ns');
    assert Moved(sec, es, ns[0], ns'[0]);
    match d.data
    case Members(ms) =>
      forall k {:trigger ms[k]} | 0 <= k < |ms| ensures Moved(sec, es, ms[k].name, d'.data.members[k].name) {
        assert ns[k + 1] == ms[k].name;
      }
    case Enumerators(qs) =>
      forall k {:trigger qs[k]} | 0 <= k < |qs| ensures Moved(sec, es, qs[k].name, d'.data.enumerators[k].name) {
        assert ns[k + 1] == qs[k].name;
      }
    case Params(ps) =>
      forall k {:trigger ps[k]} | 0 <= k < |ps| ensures Moved(sec, es, ps[k].name, d'.data.params[k].name) {
        assert ns[k + 1] == ps[k].name;
      }
    case _ =>
  }

  /** Descriptors are alike with their names as strings exactly if they are alike after their
      offsets were rewritten. */
  lemma AlikeMoved(sec: seq<Octet>, es: seq<seq<Octet>>, d: Desc, d': Desc, e: Desc, e': Desc)
    requires Ascending(es) && MovedDesc(sec, es, d, d') && MovedDesc(sec, es, e, e')
    ensures AlikeNamed(sec, d, e) <==> AlikeButIds(d', e')
  {
    hide Moved, Join, Ascending, NameAt, Names, WithNames, MovedDesc;
    MovedByField(sec, es, d, d');
    MovedByField(sec, es, e, e');
    MovedOnce(sec, es, d.name, d'.name, e.name, e'.name);
    match d.data
    case Members(ms) =>
      if e.data.Members? && |e.data.members| == |ms| {
        MembersMoved(sec, es, d, d', e, e');
      }
    case Enumerators(qs) =>
      if e.data.Enumerators? && |e.data.enumerators| == |qs| && e.info == d.info {
        EnumeratorsMoved(sec, es, d, d', e, e');
      }
    case Params(ps) =>
      if e.data.Params? && |e.data.params| == |ps| {
        ParamsMoved(sec, es, d, d', e, e');
      }
    case _ =>
  }

  lemma MembersMoved(sec: seq<Octet>, es: seq<seq<Octet>>, d: Desc, d': Desc, e: Desc, e': Desc)
    requires Ascending(es) && FieldsMoved(sec, es, d, d') && FieldsMoved(sec, es, e, e')
    requires d.data.Members? && e.data.Members? && |e.data.members| == |d.data.members|
    ensures forall k {:trigger d.data.members[k]} {:trigger d'.data.members[k]} :: 0 <= k < |d.data.members| ==>
        (d'.data.members[k].name == e'.data.members[k].name <==>
         NameAt(sec, d.data.members[k].name) == NameAt(sec, e.data.members[k].name))
  {
    hide Moved, Join, Ascending, NameAt;
    forall k | 0 <= k < |d.data.members|
      ensures d'.data.members[k].name == e'.data.members[k].name <==>
          NameAt(sec, d.data.members[k].name) == NameAt(sec, e.data.members[k].name)
    {
      MovedOnce(sec, es, d.data.members[k].name, d'.data.members[k].name, e.data.members[k].name,
        e'.data.members[k].name);
    }
  }

  lemma EnumeratorsMoved(sec: seq<Octet>, es: seq<seq<Octet>>, d: Desc, d': Desc, e: Desc, e': Desc)
    requires Ascending(es) && FieldsMoved(sec, es, d, d') && FieldsMoved(sec, es, e, e')
    requires d.data.Enumerators? && e.data.Enumerators? && |e.data.enumerators| == |d.data.enumerators|
    requires d.info == e.info
    ensures AlikeNamed(sec, d, e) <==> AlikeButIds(d', e')
  {
    hide Moved, Join, Ascending, NameAt;
    MovedOnce(sec, es, d.name, d'.name, e.name, e'.name);
    var qs, rs, qs', rs' := d.data.enumerators, e.data.enumerators, d'.data.enumerators, e'.data.enumerators;
    forall k | 0 <= k < |qs|
      ensures qs'[k] == rs'[k] <==> NameAt(sec, qs[k].name) == NameAt(sec, rs[k].name) && qs[k].val == rs[k].val
    {
      MovedOnce(sec, es, qs[k].name, qs'[k].name, rs[k].name, rs'[k].name);
    }
    if AlikeNamed(sec, d, e) {
      assert qs' == rs';
    }
    if AlikeButIds(d', e') {
      forall k | 0 <= k < |qs| ensures NameAt(sec, qs[k].name) == NameAt(sec, rs[k].name) && qs[k].val == rs[k].val {
        assert qs'[k] == rs'[k];
      }
    }
  }

  lemma ParamsMoved(sec: seq<Octet>, es: seq<seq<Octet>>, d: Desc, d': Desc, e: Desc, e': Desc)
    requires Ascending(es) && FieldsMoved(sec, es, d, d') && FieldsMoved(sec, es, e, e')
    requires d.data.Params? && e.data.Params? && |e.data.params| == |d.data.params|
    ensures forall k {:trigger d.data.params[k]} {:trigger d'.data.params[k]} :: 0 <= k < |d.data.params| ==>
        (d'.data.params[k].name == e'.data.params[k].name <==>
         NameAt(sec, d.data.params[k].name) == NameAt(sec, e.data.params[k].name))
  {
    hide Moved, Join, Ascending, NameAt;
    forall k | 0 <= k < |d.data.params|
      ensures d'.data.params[k].name == e'.data.params[k].name <==>
          NameAt(sec, d.data.params[k].name) == NameAt(sec, e.data.params[k].name)
    {
      MovedOnce(sec, es, d.data.params[k].name, d'.data.params[k].name, e.data.params[k].name, e'.data.params[k].name);
    }
  }

  /** Rewriting offsets keeps type ids. */
  lemma IdsMoved(sec: seq<Octet>, es: seq<seq<Octet>>, h: Hypot, d: Desc, d': Desc, e: Desc, e': Desc)
    requires MovedDesc(sec, es, d, d') && MovedDesc(sec, es, e, e') && FieldsCopied(h, d, e)
    ensures FieldsCopied(h, d', e') && d'.info == d.info
  {
    hide Moved, MovedDesc, CopiedId;
    MovedByField(sec, es, d, d');
    MovedByField(sec, es, e, e');
  }

  lemma CopiedAgrees(g: Graph, h: Hypot, cand: Id, canon: Id)
    requires WfGraph(g) && WfMap(g, Itself(g)) && |h| == |g| && CopiedId(h, cand, canon)
    ensures ChildAgrees(g, Itself(g), h, cand, canon)
  {
    ItselfIsMap(g);
    hide WfMap, WfGraph;
  }

  lemma FieldsAgree(g: Graph, h: Hypot, d: Desc, e: Desc)
    requires WfGraph(g) && WfMap(g, Itself(g)) && |h| == |g| && AlikeButIds(d, e) && FieldsCopied(h, d, e)
    ensures ChildrenAgree(g, Itself(g), h, d, e)
  {
    hide WfMap, WfGraph, CopiedId, ChildAgrees;
    forall a: Id, b: Id | CopiedId(h, a, b) ensures ChildAgrees(g, Itself(g), h, a, b) {
      CopiedAgrees(g, h, a, b);
    }
  }

  /** Every descriptor but void with its offsets rewritten. */
  ghost predicate AllMoved(sec: seq<Octet>, es: seq<seq<Octet>>, g: Graph, g': Graph) {
    && Ascending(es) && WfGraph(g) && WfGraph(g') && |g'| == |g|
    && forall i {:trigger g'[i]} :: 0 < i < |g| ==> MovedDesc(sec, es, g[i], g'[i])
  }

  lemma CopiesMoved(sec: seq<Octet>, es: seq<seq<Octet>>, g: Graph, g': Graph, h: Hypot)
    requires AllMoved(sec, es, g, g') && AreNamedCopies(sec, g, h)
    ensures AreCopies(g', h)
  {
    hide MovedDesc, Ascending, AlikeNamed, FieldsCopied, WellFormed, Refs, AlikeButIds, ChildrenAgree, WfMap;
    ItselfIsMap(g');
    forall c {:trigger h[c]} | 0 <= c < |g| && h[c] != UNPROCESSED ensures Agrees(g', true, Itself(g'), h, h[c], c) {
      CopyMoved(sec, es, g, g', h, c);
    }
  }

  lemma CopyMoved(sec: seq<Octet>, es: seq<seq<Octet>>, g: Graph, g': Graph, h: Hypot, c: Id)
    requires AllMoved(sec, es, g, g') && AreNamedCopies(sec, g, h) && WfMap(g', Itself(g'))
    requires c < |g| && h[c] != UNPROCESSED
    ensures Agrees(g', true, Itself(g'), h, h[c], c)
  {
    hide MovedDesc, Ascending, FieldsCopied, WellFormed, Refs, AlikeButIds, ChildrenAgree, WfMap, Injective;
    assert c != 0 && h[c] != 0;
    AlikeMoved(sec, es, g[h[c]], g'[h[c]], g[c], g'[c]);
    IdsMoved(sec, es, h, g[h[c]], g'[h[c]], g[c], g'[c]);
    FieldsAgree(g', h, g'[h[c]], g'[c]);
  }

  lemma OnlyCopiesMoved(sec: seq<Octet>, es: seq<seq<Octet>>, g: Graph, g': Graph, h: Hypot)
    requires AllMoved(sec, es, g, g') && AreNamedCopies(sec, g, h) && OnlyNamedCopies(sec, g, h)
    ensures OnlyCopies(g', h)
  {
    hide MovedDesc, Ascending, FieldsCopied, WellFormed, Refs, AlikeButIds, AlikeNamed, AreNamedCopies, OneFamily,
        OneNamedFamily, WfGraph;
    forall c: Id | c < |h| && c < |g'| && h[c] < |g'| && g'[c].info.kind in {STRUCT, UNION} ensures OneFamily(g', c) {
      KindMoved(sec, es, g, g', c);
      FamilyMoved(sec, es, g, g', c);
    }
  }

  lemma KindMoved(sec: seq<Octet>, es: seq<seq<Octet>>, g: Graph, g': Graph, i: Id)
    requires AllMoved(sec, es, g, g') && i < |g|
    ensures g'[i].info == g[i].info
  {
    if i > 0 {
      assert MovedDesc(sec, es, g[i], g'[i]);
    }
  }

  lemma FamilyMoved(sec: seq<Octet>, es: seq<seq<Octet>>, g: Graph, g': Graph, x: Id)
    requires AllMoved(sec, es, g, g') && x < |g| && g[x].info.kind in {STRUCT, UNION} && OneNamedFamily(sec, g, x)
    ensures OneFamily(g', x)
  {
    hide AllMoved, AlikeButIds, AlikeNamed, IsCopy, IsNamedCopy;
    MovedSize(sec, es, g, g');
    forall a: Id, b: Id {:trigger IsCopy(g', a, b)}
      | a < |g'| && b < |g'| && a != b && AlikeButIds(g'[a], g'[x]) && AlikeButIds(g'[b], g'[x])
      ensures IsCopy(g', a, b)
    {
      AlikeBack(sec, es, g, g', a, x);
      AlikeBack(sec, es, g, g', b, x);
      NamedFamilyCopy(sec, g, x, a, b);
      IsCopyMoved(sec, es, g, g', a, b);
    }
  }

  lemma MovedSize(sec: seq<Octet>, es: seq<seq<Octet>>, g: Graph, g': Graph)
    requires AllMoved(sec, es, g, g')
    ensures |g'| == |g|
  {
  }

  lemma NamedFamilyCopy(sec: seq<Octet>, g: Graph, x: Id, a: Id, b: Id)
    requires OneNamedFamily(sec, g, x) && x < |g| && a < |g| && b < |g| && a != b
    requires AlikeNamed(sec, g[a], g[x]) && AlikeNamed(sec, g[b], g[x])
    ensures IsNamedCopy(sec, g, a, b)
  {
    hide AlikeNamed, IsNamedCopy;
    assert IsNamedCopy(sec, g, a, b) || !IsNamedCopy(sec, g, a, b);
  }

  lemma AlikeBack(sec: seq<Octet>, es: seq<seq<Octet>>, g: Graph, g': Graph, a: Id, x: Id)
    requires AllMoved(sec, es, g, g') && a < |g| && x < |g| && g[x].info.kind in {STRUCT, UNION}
    requires AlikeButIds(g'[a], g'[x])
    ensures AlikeNamed(sec, g[a], g[x])
  {
    KindMoved(sec, es, g, g', a);
    KindMoved(sec, es, g, g', x);
    AlikeKinds(g'[a], g'[x]);
    hide MovedDesc, Ascending, WellFormed, Refs, AlikeButIds, AlikeNamed;
    assert a != 0 && x != 0;
    AlikeMoved(sec, es, g[a], g'[a], g[x], g'[x]);
  }

  lemma IsCopyMoved(sec: seq<Octet>, es: seq<seq<Octet>>, g: Graph, g': Graph, a: Id, b: Id)
    requires AllMoved(sec, es, g, g') && IsNamedCopy(sec, g, a, b)
    ensures IsCopy(g', a, b)
  {
    hide AllMoved, AreNamedCopies, AreCopies;
    var h: Hypot :| AreNamedCopies(sec, g, h) && a < |h| && h[a] == b;
    CopiesMoved(sec, es, g, g', h);
  }

  /** If the copies of the renamed types share their final ids, those of the named ones do. */
  lemma NamedCopiesMeet(sec: seq<Octet>, es: seq<seq<Octet>>, g: Graph, g': Graph, exact: bool, ids: seq<nat>, h: Hypot)
    requires AllMoved(sec, es, g, g') && CopiesMeet(g', exact, ids) && (exact || SharedTags(g') == {})
    requires AreNamedCopies(sec, g, h) && OnlyNamedCopies(sec, g, h)
    ensures ShareIds(g, h, ids)
  {
    CopiesMoved(sec, es, g, g', h);
    OnlyCopiesMoved(sec, es, g, g', h);
    MovedSize(sec, es, g, g');
    hide AllMoved, AreNamedCopies, OnlyNamedCopies, AreCopies, OnlyCopies, SharedTags;
    assert ShareIds(g', h, ids);
  }
}
