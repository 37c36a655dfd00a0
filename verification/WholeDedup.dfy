/** `btf__dedup` as a whole: string deduplication followed by the passes over the types. Names
    are compared as strings here, not as offsets, so the statement spans both halves. */
module WholeDedup {
  import opened Basics
  import opened BtfTypes
  import opened TypeGraph
  import opened Strings
  import opened StringDedup
  import Meaning
  import RefPass
  import opened Distinctness
  import opened Fields
  import opened Copies
  import opened NamedCopies
  import opened Equivalence
  import D = Dedup

  function NamesAt(sec: seq<Octet>, cs: seq<nat>): seq<seq<Octet>> {
    seq(|cs|, k requires 0 <= k < |cs| => NameAt(sec, cs[k]))
  }

  /** A descriptor without its references and string offsets. */
  function Blank(d: Desc): Desc {
    BlankKeeps(d);
    WithNames(Shape(d), Zeros(|Names(d)|))
  }

  lemma BlankKeeps(d: Desc)
    ensures Names(Shape(d)) == Names(d)
  {
  }

  /** A C tag with its name spelled out. */
  datatype NamedTag = NamedTag(name: seq<Octet>, kind: Kind)

  function Spelled(sec: seq<Octet>, t: Tag): NamedTag { NamedTag(NameAt(sec, t.name), t.kind) }

  /** A type unfolded to depth `n`, with its names spelled out. Types of an opaque tag are cut
      down to it. */
  datatype NamedTree = Cut | Opaque(tag: NamedTag) | Node(blank: Desc, names: seq<seq<Octet>>, kids: seq<NamedTree>)

  ghost function UnfoldNamed(sec: seq<Octet>, g: Graph, ops: set<NamedTag>, i: Id, n: nat): NamedTree
    requires WfGraph(g) && i < |g|
    decreases n
  {
    if n == 0 then NamedTree.Cut
    else if Spelled(sec, TagOf(g[i])) in ops then NamedTree.Opaque(Spelled(sec, TagOf(g[i])))
    else NamedTree.Node(Blank(g[i]), NamesAt(sec, Names(g[i])),
                        seq(|Refs(g[i])|, k requires 0 <= k < |Refs(g[i])| => UnfoldNamed(sec, g, ops, Refs(g[i])[k],
                            n - 1)))
  }

  lemma SpelledByParts(sec: seq<Octet>, d: Desc, sec': seq<Octet>, e: Desc)
    requires Blank(d) == Blank(e) && NamesAt(sec, Names(d)) == NamesAt(sec', Names(e))
    ensures Spelled(sec, TagOf(d)) == Spelled(sec', TagOf(e)) && d.info == e.info
  {
    assert NamesAt(sec, Names(d))[0] == NamesAt(sec', Names(e))[0];
    BlankInfo(d);
    BlankInfo(e);
  }

  lemma BlankInfo(d: Desc)
    ensures Blank(d).info == d.info
  {
  }

  lemma UnfoldNamedStep(sec: seq<Octet>, g: Graph, a: Id, sec': seq<Octet>, h: Graph, b: Id, ops: set<NamedTag>, n: nat)
    requires WfGraph(g) && WfGraph(h) && a < |g| && b < |h|
    requires Blank(g[a]) == Blank(h[b]) && NamesAt(sec, Names(g[a])) == NamesAt(sec', Names(h[b]))
        && |Refs(g[a])| == |Refs(h[b])|
    requires forall k :: 0 <= k < |Refs(g[a])| ==>
        UnfoldNamed(sec, g, ops, Refs(g[a])[k], n) == UnfoldNamed(sec', h, ops, Refs(h[b])[k], n)
    ensures UnfoldNamed(sec, g, ops, a, n + 1) == UnfoldNamed(sec', h, ops, b, n + 1)
  {
    SpelledByParts(sec, g[a], sec', h[b]);
    hide Blank, Refs, Names, NamesAt, TagOf;
    if Spelled(sec, TagOf(g[a])) !in ops {
      assert UnfoldNamed(sec, g, ops, a, n + 1).kids == UnfoldNamed(sec', h, ops, b, n + 1).kids;
    }
  }

  lemma SameShapeReads(sec: seq<Octet>, d: Desc, e: Desc)
    requires Shape(d) == Shape(e)
    ensures Blank(d) == Blank(e) && NamesAt(sec, Names(d)) == NamesAt(sec, Names(e)) && |Refs(d)| == |Refs(e)|
  {
    BlankKeeps(d);
    BlankKeeps(e);
    ShapeAndRefs(d, e);
    hide Shape, Refs, Names, NamesAt;
  }

  /** One set of opaque tags, as offsets and spelled out. */
  ghost predicate OpaqueAlike(sec: seq<Octet>, g: Graph, r: Reading, ops: set<NamedTag>) {
    && r.defs == map[]
    && forall i: Id {:trigger g[i]} :: i < |g| ==> (TagOf(g[i]) in r.opaques <==> Spelled(sec, TagOf(g[i])) in ops)
  }

  /** What equal unfoldings have in common one level down. */
  lemma TreeParts(g: Graph, r: Reading, a: Id, h: Graph, q: Reading, b: Id, n: nat)
    requires WfGraph(g) && WfGraph(h) && a < |g| && b < |h| && WfReading(g, r) && WfReading(h, q)
    requires r.defs == map[] == q.defs && r.opaques == q.opaques && n > 0 && Unfold(g, r, a, n) == Unfold(h, q, b, n)
    ensures TagOf(g[a]) == TagOf(h[b])
    ensures TagOf(g[a]) !in r.opaques ==>
      && Shape(g[a]) == Shape(h[b]) && |Refs(g[a])| == |Refs(h[b])|
      && forall k :: 0 <= k < |Refs(g[a])| ==> Unfold(g, r, Refs(g[a])[k], n - 1) == Unfold(h, q, Refs(h[b])[k], n - 1)
  {
    hide Shape, Refs, TagOf, WellFormed;
    var t, u := Unfold(g, r, a, n), Unfold(h, q, b, n);
    if t.Node? {
      assert t.shape == u.shape && t.kids == u.kids;
      ShapeTag(g[a], h[b]);
      forall k | 0 <= k < |Refs(g[a])|
        ensures Unfold(g, r, Refs(g[a])[k], n - 1) == Unfold(h, q, Refs(h[b])[k], n - 1)
      {
        assert t.kids[k] == u.kids[k];
      }
    }
  }

  /** Equal unfoldings read alike. */
  lemma {:induction false} SameTreeSameNames(sec: seq<Octet>, ops: set<NamedTag>, g: Graph, r: Reading, a: Id, h: Graph,
      q: Reading, b: Id, n: nat)
    requires WfGraph(g) && WfGraph(h) && a < |g| && b < |h| && WfReading(g, r) && WfReading(h, q)
    requires OpaqueAlike(sec, g, r, ops) && q.defs == map[] && r.opaques == q.opaques
        && Unfold(g, r, a, n) == Unfold(h, q, b, n)
    ensures UnfoldNamed(sec, g, ops, a, n) == UnfoldNamed(sec, h, ops, b, n)
    decreases n
  {
    hide Shape, Refs, Names, NamesAt, Blank, WellFormed, Unfold, TagOf, OpaqueAlike;
    if n > 0 {
      assert r.defs == map[] by { OpaqueTag(sec, g, r, ops, a); }
      TreeParts(g, r, a, h, q, b, n);
      OpaqueTag(sec, g, r, ops, a);
      if TagOf(g[a]) !in r.opaques {
        SameShapeReads(sec, g[a], h[b]);
        forall k | 0 <= k < |Refs(g[a])|
          ensures UnfoldNamed(sec, g, ops, Refs(g[a])[k], n - 1) == UnfoldNamed(sec, h, ops, Refs(h[b])[k], n - 1)
        {
          SameTreeSameNames(sec, ops, g, r, Refs(g[a])[k], h, q, Refs(h[b])[k], n - 1);
        }
        UnfoldNamedStep(sec, g, a, sec, h, b, ops, n - 1);
      }
    }
  }

  lemma OpaqueTag(sec: seq<Octet>, g: Graph, r: Reading, ops: set<NamedTag>, a: Id)
    requires OpaqueAlike(sec, g, r, ops) && a < |g|
    ensures r.defs == map[] && (TagOf(g[a]) in r.opaques <==> Spelled(sec, TagOf(g[a])) in ops)
  {
  }

  /** Rewriting string offsets leaves references, kinds and sizes alone. */
  lemma RenamedParts(d: Desc, ns: seq<nat>)
    requires |ns| == |Names(d)|
    ensures Refs(WithNames(d, ns)) == Refs(d) && Blank(WithNames(d, ns)) == Blank(d)
    ensures WellFormed(d) ==> WellFormed(WithNames(d, ns))
  {
    hide Shape, Refs, WellFormed;
    RenamedRefs(d, ns);
    RenamedBlank(d, ns);
  }

  lemma RenamedRefs(d: Desc, ns: seq<nat>)
    requires |ns| == |Names(d)|
    ensures Refs(WithNames(d, ns)) == Refs(d)
    ensures WellFormed(d) ==> WellFormed(WithNames(d, ns))
  {
    assert DataRefs(WithDataNames(d.data, ns[1..])) == DataRefs(d.data);
  }

  /** The data that follows a descriptor, without references and string offsets. */
  function BlankData(data: Data): Data {
    var d := WithDataRefs(data, Zeros(|DataRefs(data)|));
    WithDataNames(d, Zeros(|DataNames(d)|))
  }

  lemma RenamedBlankData(data: Data, ns: seq<nat>)
    requires |ns| == |DataNames(data)|
    ensures BlankData(WithDataNames(data, ns)) == BlankData(data)
  {
    match data
    case Members(ms) =>
      assert BlankData(WithDataNames(data, ns)).members == BlankData(data).members;
    case Enumerators(es) =>
      assert BlankData(WithDataNames(data, ns)).enumerators == BlankData(data).enumerators;
    case Params(ps) =>
      assert BlankData(WithDataNames(data, ns)).params == BlankData(data).params;
    case _ =>
  }

  lemma BlankParts(d: Desc)
    ensures Blank(d) == Desc(0, d.info, if WordIsRef(d.info.kind) then 0 else d.word, BlankData(d.data))
  {
    BlankKeeps(d);
    assert Zeros(|Refs(d)|)[|Refs(d)| - |DataRefs(d.data)|..] == Zeros(|DataRefs(d.data)|);
    assert Zeros(|Names(d)|)[1..] == Zeros(|DataNames(d.data)|);
  }

  lemma RenamedBlank(d: Desc, ns: seq<nat>)
    requires |ns| == |Names(d)|
    ensures Blank(WithNames(d, ns)) == Blank(d)
  {
    BlankParts(d);
    BlankParts(WithNames(d, ns));
    RenamedBlankData(d.data, ns[1..]);
  }

  // ---------------------------------------------------------------- the two halves together

  /** Every type reads the same after its strings were deduplicated. */
  lemma {:induction false} StringsPreserved(sec: seq<Octet>, ts: Graph, ls: seq<LineSec>, sec': seq<Octet>, ts': Graph,
      ls': seq<LineSec>, es: seq<seq<Octet>>,
                                         ops: set<NamedTag>, i: Id, n: nat)
    requires WfGraph(ts) && WfGraph(ts') && WfSection(sec) && WfSection(sec') && i < |ts|
    requires StringDedup.Deduplicated(sec, ts, ls, sec', ts', ls', es)
    ensures UnfoldNamed(sec', ts', ops, i, n) == UnfoldNamed(sec, ts, ops, i, n)
    decreases n
  {
    hide Shape, Refs, Names, Blank, WellFormed, NamesAt, WfSection, MovedDesc, MovedLine, Join, Ascending, Referenced;
    if n > 0 {
      DescReads(sec, ts, ls, sec', ts', ls', es, i);
      forall k | 0 <= k < |Refs(ts[i])|
        ensures UnfoldNamed(sec', ts', ops, Refs(ts'[i])[k], n - 1) == UnfoldNamed(sec, ts, ops, Refs(ts[i])[k], n - 1)
      {
        StringsPreserved(sec, ts, ls, sec', ts', ls', es, ops, Refs(ts[i])[k], n - 1);
      }
      UnfoldNamedStep(sec', ts', i, sec, ts, i, ops, n - 1);
    }
  }

  /** String deduplication leaves a well-formed type graph. */
  lemma StringsKeepGraph(sec: seq<Octet>, ts: Graph, ls: seq<LineSec>, sec': seq<Octet>, ts': Graph, ls': seq<LineSec>,
      es: seq<seq<Octet>>)
    requires WfGraph(ts) && StringDedup.Deduplicated(sec, ts, ls, sec', ts', ls', es) && ts'[0] == ts[0]
    ensures WfGraph(ts')
  {
    hide Names, WellFormed, MovedLine, Join, Ascending, Referenced, Moved, MovedAll, Refs;
    forall i | 0 < i < |ts'| ensures WellFormed(ts'[i]) && Refs(ts'[i]) == Refs(ts[i]) {
      assert MovedDesc(sec, es, ts[i], ts'[i]);
      RenamedRefs(ts[i], Names(ts'[i]));
    }
  }

  lemma DescReads(sec: seq<Octet>, ts: Graph, ls: seq<LineSec>, sec': seq<Octet>, ts': Graph, ls': seq<LineSec>,
      es: seq<seq<Octet>>, i: Id)
    requires WfGraph(ts) && WfGraph(ts') && WfSection(sec) && WfSection(sec') && i < |ts|
    requires StringDedup.Deduplicated(sec, ts, ls, sec', ts', ls', es)
    ensures Refs(ts'[i]) == Refs(ts[i]) && Blank(ts'[i]) == Blank(ts[i])
    ensures NamesAt(sec', Names(ts'[i])) == NamesAt(sec, Names(ts[i]))
  {
    hide Shape, Refs, Blank, WellFormed, MovedLine, Join, Ascending, Referenced, Moved;
    if i == 0 {
      VoidReads(sec, sec');
    } else {
      assert MovedDesc(sec, es, ts[i], ts'[i]);
      RenamedParts(ts[i], Names(ts'[i]));
      hide Names;
      forall k | 0 <= k < |Names(ts[i])| ensures NameAt(sec', Names(ts'[i])[k]) == NameAt(sec, Names(ts[i])[k]) {
        MovedInSection(sec, es, Names(ts[i])[k], Names(ts'[i])[k]);
      }
    }
  }

  lemma VoidReads(sec: seq<Octet>, sec': seq<Octet>)
    requires WfSection(sec) && WfSection(sec')
    ensures NamesAt(sec', Names(VOID_DESC)) == NamesAt(sec, Names(VOID_DESC))
  {
    assert Str(sec, 0) == [] && Str(sec', 0) == [];
  }

  /** `btf__dedup` keeps what a reading with opaque tags sees: every input type, read with the
      old string section, unfolds to every depth like the type under its final id, read with
      the new. */
  lemma DedupPreservesNamedMeaning(sec: seq<Octet>, ts: Graph, ls: seq<LineSec>, sec': seq<Octet>, ts': Graph,
      ls': seq<LineSec>, es: seq<seq<Octet>>,
                                   r: Reading, ops: set<NamedTag>, ids: seq<nat>, out: Graph, i: Id, n: nat)
    requires WfGraph(ts) && WfSection(sec) && WfSection(sec') && i < |ts|
    requires StringDedup.Deduplicated(sec, ts, ls, sec', ts', ls', es)
    requires Meaning.KeepsMeaning(ts', r, ids, out) && OpaqueAlike(sec', ts', r, ops)
    ensures ids[i] < |out| && UnfoldNamed(sec', out, ops, ids[i], n) == UnfoldNamed(sec, ts, ops, i, n)
  {
    hide UnfoldNamed, WfSection, WellFormed, Refs, MovedDesc, MovedLine, Join, Ascending, Referenced, OpaqueAlike,
        TagOf;
    StringsPreserved(sec, ts, ls, sec', ts', ls', es, ops, i, n);
    OpaqueTag(sec', ts', r, ops, i);
    var q := Meaning.Renamed(r, ids);
    assert q.defs == map[];
    assert Unfold(ts', r, i, n) == Unfold(out, q, ids[i], n);
    SameTreeSameNames(sec', ops, ts', r, i, out, q, ids[i], n);
  }

  // ---------------------------------------------------------------- announced tags

  /** A forward declaration, or forward enum, and a definition of one spelled tag. */
  ghost predicate AnnouncesNamed(sec: seq<Octet>, g: Graph, i: Id, j: Id) {
    i < |g| && j < |g| && FwdLike(g[i]) && !FwdLike(g[j]) && Spelled(sec, TagOf(g[i])) == Spelled(sec, TagOf(g[j]))
  }

  /** The tags that are both announced and defined. */
  ghost function SharedNames(sec: seq<Octet>, g: Graph): set<NamedTag> {
    set i: Id, j: Id | i < |g| && j < |g| && AnnouncesNamed(sec, g, i, j) :: Spelled(sec, TagOf(g[i]))
  }

  lemma FwdTags(d: Desc)
    ensures FwdLike(d) ==> TagOf(d).kind != VOID
    ensures d == VOID_DESC ==> TagOf(d).kind == VOID && !FwdLike(d)
  {
  }

  /** After string deduplication two tags are equal exactly when their spellings are. */
  lemma TagsMoved(sec: seq<Octet>, ts: Graph, ls: seq<LineSec>, sec': seq<Octet>, ts': Graph, ls': seq<LineSec>,
      es: seq<seq<Octet>>, i: Id, j: Id)
    requires WfGraph(ts) && StringDedup.Deduplicated(sec, ts, ls, sec', ts', ls', es) && SameSkeleton(ts, ts')
    requires 0 < i < |ts| && 0 < j < |ts|
    ensures Spelled(sec', TagOf(ts'[i])) == Spelled(sec, TagOf(ts[i])) && FwdLike(ts'[i]) == FwdLike(ts[i])
    ensures TagOf(ts'[i]) == TagOf(ts'[j]) <==> Spelled(sec, TagOf(ts[i])) == Spelled(sec, TagOf(ts[j]))
  {
    hide WellFormed, Refs, MovedLine, Join, Ascending, Referenced, Moved;
    assert MovedDesc(sec, es, ts[i], ts'[i]) && MovedDesc(sec, es, ts[j], ts'[j]);
    var c, c', d, d' := Names(ts[i])[0], Names(ts'[i])[0], Names(ts[j])[0], Names(ts'[j])[0];
    assert Moved(sec, es, c, c') && Moved(sec, es, d, d');
    MovedMeaning(sec, es, c, c', d, d');
    MovedFits(sec, es, c, c');
    MovedFits(sec, es, d, d');
  }

  lemma MovedFits(sec: seq<Octet>, es: seq<seq<Octet>>, c: nat, c': nat)
    requires Ascending(es) && Moved(sec, es, c, c')
    ensures NameAt(sec, c) == Str(sec, c) && NameAt(Join(es), c') == Str(sec, c)
  {
    MovedMeaning(sec, es, c, c', c, c');
  }

  lemma SharedAlike(sec: seq<Octet>, ts: Graph, ls: seq<LineSec>, sec': seq<Octet>, ts': Graph, ls': seq<LineSec>,
      es: seq<seq<Octet>>)
    requires WfGraph(ts) && WfGraph(ts') && StringDedup.Deduplicated(sec, ts, ls, sec', ts', ls', es)
        && SameSkeleton(ts, ts')
    ensures OpaqueAlike(sec', ts', Reading(SharedTags(ts'), map[]), SharedNames(sec, ts))
  {
    hide WellFormed, Refs, StringDedup.Deduplicated, TagOf, FwdLike, SameSkeleton;
    assert |ts'| == |ts| by { SkeletonSize(ts, ts'); }
    forall i: Id {:trigger ts'[i]} | i < |ts'|
      ensures TagOf(ts'[i]) in SharedTags(ts') <==> Spelled(sec', TagOf(ts'[i])) in SharedNames(sec, ts)
    {
      SharedFound(sec, ts, ls, sec', ts', ls', es, i);
    }
  }

  lemma SkeletonSize(g: Graph, g': Graph)
    requires SameSkeleton(g, g')
    ensures |g'| == |g|
  {
  }

  lemma SharedFound(sec: seq<Octet>, ts: Graph, ls: seq<LineSec>, sec': seq<Octet>, ts': Graph, ls': seq<LineSec>,
      es: seq<seq<Octet>>, i: Id)
    requires WfGraph(ts) && WfGraph(ts') && StringDedup.Deduplicated(sec, ts, ls, sec', ts', ls', es)
        && SameSkeleton(ts, ts') && i < |ts'|
    ensures TagOf(ts'[i]) in SharedTags(ts') <==> Spelled(sec', TagOf(ts'[i])) in SharedNames(sec, ts)
  {
    hide WellFormed, Refs, StringDedup.Deduplicated, TagOf, FwdLike, SameSkeleton;
    SkeletonSize(ts, ts');
    if TagOf(ts'[i]) in SharedTags(ts') {
      var x: Id, y: Id :| x < |ts'| && y < |ts'| && Announces(ts', x, y) && TagOf(ts'[x]) == TagOf(ts'[i]);
      NotVoid(ts', i, x);
      NotVoid(ts', y, x);
      TagsMoved(sec, ts, ls, sec', ts', ls', es, x, i);
      TagsMoved(sec, ts, ls, sec', ts', ls', es, i, x);
      TagsMoved(sec, ts, ls, sec', ts', ls', es, y, x);
      assert AnnouncesNamed(sec, ts, x, y);
    }
    if Spelled(sec', TagOf(ts'[i])) in SharedNames(sec, ts) {
      var x: Id, y: Id :| x < |ts| && y < |ts| && AnnouncesNamed(sec, ts, x, y)
          && Spelled(sec, TagOf(ts[x])) == Spelled(sec', TagOf(ts'[i]));
      FwdTags(ts[x]);
      FwdTags(ts[y]);
      FwdTags(ts'[i]);
      TagsMoved(sec, ts, ls, sec', ts', ls', es, i, x);
      TagsMoved(sec, ts, ls, sec', ts', ls', es, x, i);
      TagsMoved(sec, ts, ls, sec', ts', ls', es, x, y);
      TagsMoved(sec, ts, ls, sec', ts', ls', es, y, x);
      assert Announces(ts', x, y);
    }
  }

  lemma NotVoid(g: Graph, i: Id, x: Id)
    requires WfGraph(g) && i < |g| && x < |g| && FwdLike(g[x]) && TagOf(g[i]) == TagOf(g[x])
    ensures 0 < i && 0 < x
  {
  }

  // ---------------------------------------------------------------- the whole run

  /** The same links and kinds, whatever the names. */
  ghost predicate SameSkeleton(g: Graph, g': Graph) {
    |g'| == |g| && forall i {:trigger g[i]} {:trigger g'[i]} :: 0 <= i < |g| ==>
        g'[i].info == g[i].info && Refs(g'[i]) == Refs(g[i])
  }

  /** What decides the outcome of the passes does not depend on names. */
  lemma SkeletonDecides(g: Graph, g': Graph)
    requires SameSkeleton(g, g')
    ensures forall ids: seq<nat>, out: Graph :: Meaning.ForwardsStay(g', ids, out) <==>
        Meaning.ForwardsStay(g, ids, out)
    ensures HasVoid(g') <==> HasVoid(g)
    ensures D.Malformed(g') <==> D.Malformed(g)
    ensures RefPass.HasRefCycle(g') <==> RefPass.HasRefCycle(g)
  {
    hide Refs;
    CyclesKept(g, g');
    CyclesKept(g', g);
    assert ProperRefs(g') <==> ProperRefs(g);
  }

  lemma CyclesKept(g: Graph, g': Graph)
    requires SameSkeleton(g, g')
    ensures RefPass.HasRefCycle(g) ==> RefPass.HasRefCycle(g')
  {
    hide Refs;
    forall p | RefPass.IsRefCycle(g, p) ensures RefPass.IsRefCycle(g', p) {
    }
  }

  lemma StringsKeepSkeleton(sec: seq<Octet>, ts: Graph, ls: seq<LineSec>, sec': seq<Octet>, ts': Graph,
      ls': seq<LineSec>, es: seq<seq<Octet>>)
    requires WfGraph(ts) && StringDedup.Deduplicated(sec, ts, ls, sec', ts', ls', es) && ts'[0] == ts[0]
    ensures SameSkeleton(ts, ts')
  {
    hide Names, WellFormed, MovedLine, Join, Ascending, Referenced, Moved, MovedAll, Refs;
    forall i | 0 < i < |ts'| ensures ts'[i].info == ts[i].info && Refs(ts'[i]) == Refs(ts[i]) {
      assert MovedDesc(sec, es, ts[i], ts'[i]);
      RenamedRefs(ts[i], Names(ts'[i]));
      WithNamesLaws(ts[i], Names(ts'[i]));
    }
  }

  /** Two types read the same to every depth. */
  ghost predicate SameNamed(sec: seq<Octet>, g: Graph, i: Id, sec': seq<Octet>, h: Graph, j: Id, ops: set<NamedTag>)
    requires WfGraph(g) && WfGraph(h) && i < |g| && j < |h|
  {
    forall n: nat :: UnfoldNamed(sec', h, ops, j, n) == UnfoldNamed(sec, g, ops, i, n)
  }

  /** Every type reads the same under its final id. */
  ghost predicate ReadsAlike(sec: seq<Octet>, g: Graph, ops: set<NamedTag>, ids: seq<nat>, sec': seq<Octet>,
      out: Graph)
  {
    && WfGraph(g) && WfGraph(out) && |ids| == |g|
    && forall i {:trigger ids[i]} :: 0 <= i < |g| ==> ids[i] < |out| && SameNamed(sec, g, i, sec', out, ids[i], ops)
  }

  /** Every type still has its name, and its kind or the one it announced. */
  ghost predicate NamedAlike(sec: seq<Octet>, g: Graph, ids: seq<nat>, sec': seq<Octet>, out: Graph) {
    && |ids| == |g|
    && forall i {:trigger ids[i]} :: 0 <= i < |g| ==>
         ids[i] < |out| && TagOf(out[ids[i]]).kind == TagOf(g[i]).kind
             && NameAt(sec', out[ids[i]].name) == NameAt(sec, g[i].name)
  }

  /** Every line-information record still names its file and its line of source text. */
  ghost predicate LinesAlike(sec: seq<Octet>, ls: seq<LineSec>, sec': seq<Octet>, ls': seq<LineSec>) {
    |ls'| == |ls| && forall i {:trigger ls'[i]} :: 0 <= i < |ls| ==>
        NamesAt(sec', LineNames(ls'[i])) == NamesAt(sec, LineNames(ls[i]))
  }

  // ---------------------------------------------------------------- what the input decides

  /** A forward enum and a full one that it announces, of one size. */
  ghost predicate EnumClashNamed(sec: seq<Octet>, g: Graph, i: Id, j: Id) {
    && AnnouncesNamed(sec, g, i, j) && g[i].info.kind == ENUM
    && g[i].info.(vlen := 0) == g[j].info.(vlen := 0) && g[i].word == g[j].word
  }

  ghost predicate HasEnumClashNamed(sec: seq<Octet>, g: Graph) { exists i: Id, j: Id :: EnumClashNamed(sec, g, i, j) }

  /** Two structs or unions that agree but for their member types, and have one outline. */
  ghost predicate TwinsNamed(sec: seq<Octet>, g: Graph, i: Id, j: Id) {
    && WfGraph(g) && i < |g| && j < |g| && i != j && IsComposite(g[i].info.kind)
    && Blank(g[i]) == Blank(g[j]) && NamesAt(sec, Names(g[i])) == NamesAt(sec, Names(g[j]))
    && SameNamed(sec, g, i, sec, g, j, SharedNames(sec, g))
  }

  ghost predicate HasTwinsNamed(sec: seq<Octet>, g: Graph) { exists i: Id, j: Id :: TwinsNamed(sec, g, i, j) }

  /** Some struct or union is both announced and defined. */
  ghost predicate HasAnnouncedNamed(sec: seq<Octet>, g: Graph) {
    exists f: Id, d: Id :: AnnouncesNamed(sec, g, f, d) && g[f].info.kind == FWD
  }

  /** What can be told without a run about whether forward declarations stay as they are. */
  ghost predicate InputDecidesNamed(sec: seq<Octet>, g: Graph, stay: bool) {
    && (HasEnumClashNamed(sec, g) ==> !stay)
    && (!HasEnumClashNamed(sec, g) && !(HasTwinsNamed(sec, g) && HasAnnouncedNamed(sec, g)) ==> stay)
  }

  lemma AnnouncedMoved(sec: seq<Octet>, ts: Graph, ls: seq<LineSec>, sec': seq<Octet>, ts': Graph, ls': seq<LineSec>,
      es: seq<seq<Octet>>, i: Id, j: Id)
    requires WfGraph(ts) && WfGraph(ts') && StringDedup.Deduplicated(sec, ts, ls, sec', ts', ls', es)
        && SameSkeleton(ts, ts')
    ensures Announces(ts', i, j) <==> AnnouncesNamed(sec, ts, i, j)
  {
    hide WellFormed, Refs, StringDedup.Deduplicated, TagOf, FwdLike, WfGraph;
    SkeletonSize(ts, ts');
    if i < |ts| && j < |ts| {
      assert ts[0] == ts'[0] == VOID_DESC by { GraphStarts(ts); GraphStarts(ts'); }
      FwdTags(ts[i]);
      FwdTags(ts[j]);
      FwdTags(ts'[i]);
      FwdTags(ts'[j]);
      if 0 < i && 0 < j {
        TagsMoved(sec, ts, ls, sec', ts', ls', es, i, j);
        TagsMoved(sec, ts, ls, sec', ts', ls', es, j, i);
      }
    }
  }

  lemma EnumClashMoved(sec: seq<Octet>, ts: Graph, ls: seq<LineSec>, sec': seq<Octet>, ts': Graph, ls': seq<LineSec>,
      es: seq<seq<Octet>>, i: Id, j: Id)
    requires WfGraph(ts) && WfGraph(ts') && WfSection(sec) && WfSection(sec')
    requires StringDedup.Deduplicated(sec, ts, ls, sec', ts', ls', es) && SameSkeleton(ts, ts')
    ensures D.EnumClash(ts', i, j) <==> EnumClashNamed(sec, ts, i, j)
  {
    hide WellFormed, Refs, StringDedup.Deduplicated, SameSkeleton, WfSection, Blank;
    SkeletonSize(ts, ts');
    AnnouncedMoved(sec, ts, ls, sec', ts', ls', es, i, j);
    if i < |ts| && j < |ts| {
      DescReads(sec, ts, ls, sec', ts', ls', es, i);
      DescReads(sec, ts, ls, sec', ts', ls', es, j);
      BlankParts(ts[i]);
      BlankParts(ts[j]);
      BlankParts(ts'[i]);
      BlankParts(ts'[j]);
      assert WellFormed(ts'[i]) && WellFormed(ts'[j]);
    }
  }

  /** Shallow-equal structs differ in their references only. */
  lemma ShallowBlank(d: Desc, e: Desc)
    requires IsComposite(d.info.kind) && WellFormed(d) && WellFormed(e) && StructsShallowEqual(d, e)
    ensures Blank(d) == Blank(e) && Names(d) == Names(e)
  {
    BlankParts(d);
    BlankParts(e);
    assert BlankData(d.data).members == BlankData(e.data).members;
    assert DataNames(d.data) == DataNames(e.data);
  }

  lemma TwinsMoved(sec: seq<Octet>, ts: Graph, ls: seq<LineSec>, sec': seq<Octet>, ts': Graph, ls': seq<LineSec>,
      es: seq<seq<Octet>>, i: Id, j: Id)
    requires WfGraph(ts) && WfGraph(ts') && WfSection(sec) && WfSection(sec')
    requires StringDedup.Deduplicated(sec, ts, ls, sec', ts', ls', es) && SameSkeleton(ts, ts') && D.Twins(ts', i, j)
    ensures TwinsNamed(sec, ts, i, j)
  {
    hide WellFormed, Refs, StringDedup.Deduplicated, WfSection, Blank, StructsShallowEqual, Names, NamesAt, TagOf,
        SharedTags, SharedNames, UnfoldNamed, OpaqueAlike, WfGraph, Unfold, Coherent;
    SkeletonSize(ts, ts');
    DescReads(sec, ts, ls, sec', ts', ls', es, i);
    DescReads(sec, ts, ls, sec', ts', ls', es, j);
    WellFormedAt(ts', i);
    WellFormedAt(ts', j);
    ShallowBlank(ts'[i], ts'[j]);
    var r, ops := Reading(SharedTags(ts'), map[]), SharedNames(sec, ts);
    OutlineCoherent(ts', false);
    SharedAlike(sec, ts, ls, sec', ts', ls', es);
    forall n: nat ensures UnfoldNamed(sec, ts, ops, j, n) == UnfoldNamed(sec, ts, ops, i, n) {
      assert Equiv(ts', r, i, j);
      SameTreeSameNames(sec', ops, ts', r, i, ts', r, j, n);
      StringsPreserved(sec, ts, ls, sec', ts', ls', es, ops, i, n);
      StringsPreserved(sec, ts, ls, sec', ts', ls', es, ops, j, n);
    }
  }

  lemma WellFormedAt(g: Graph, i: Id)
    requires WfGraph(g) && i < |g|
    ensures WellFormed(g[i])
  {
  }

  /** What the renamed input decides, the input decides. */
  lemma DecidedByNames(sec: seq<Octet>, ts: Graph, ls: seq<LineSec>, sec': seq<Octet>, ts': Graph, ls': seq<LineSec>,
      es: seq<seq<Octet>>, stay: bool)
    requires WfGraph(ts) && WfGraph(ts') && WfSection(sec) && WfSection(sec')
    requires StringDedup.Deduplicated(sec, ts, ls, sec', ts', ls', es) && SameSkeleton(ts, ts')
    requires D.InputDecides(ts', stay)
    ensures InputDecidesNamed(sec, ts, stay)
  {
    hide WfGraph, WfSection, StringDedup.Deduplicated, D.EnumClash, EnumClashNamed, D.Twins, TwinsNamed, Announces,
        AnnouncesNamed;
    SkeletonSize(ts, ts');
    forall i: Id, j: Id ensures D.EnumClash(ts', i, j) <==> EnumClashNamed(sec, ts, i, j) {
      EnumClashMoved(sec, ts, ls, sec', ts', ls', es, i, j);
    }
    forall i: Id, j: Id ensures Announces(ts', i, j) <==> AnnouncesNamed(sec, ts, i, j) {
      AnnouncedMoved(sec, ts, ls, sec', ts', ls', es, i, j);
    }
    forall i: Id, j: Id | D.Twins(ts', i, j) ensures TwinsNamed(sec, ts, i, j) {
      TwinsMoved(sec, ts, ls, sec', ts', ls', es, i, j);
    }
    ClashInRange(ts');
    KindsKept(sec, ts, ts');
  }

  lemma ClashInRange(g: Graph)
    ensures D.HasEnumClash(g, |g|) <==> exists i: Id, j: Id :: D.EnumClash(g, i, j)
  {
    hide WellFormed, EnumsCompatible;
  }

  lemma KindsKept(sec: seq<Octet>, g: Graph, g': Graph)
    requires SameSkeleton(g, g')
    ensures forall f: Id, d: Id {:trigger AnnouncesNamed(sec, g, f, d)} ::
        AnnouncesNamed(sec, g, f, d) ==> g'[f].info == g[f].info
  {
    hide Refs, FwdLike;
  }

  // ---------------------------------------------------------------- field by field

  /** The second descriptor is the first one with every type id replaced by its final id and every
      name readable as before. */
  predicate SameFields(sec: seq<Octet>, d: Desc, sec': seq<Octet>, e: Desc, ids: seq<nat>) {
    && NameAt(sec', e.name) == NameAt(sec, d.name) && e.info == d.info
    && (if d.info.kind in {CONST, VOLATILE, RESTRICT, PTR, TYPEDEF, FUNC, FUNC_PROTO, VAR} then
          d.word < |ids| && e.word == ids[d.word]
        else e.word == d.word)
    && match d.data
       case NoData => e.data == NoData
       case IntData(_) => e.data == d.data
       case VarData(_) => e.data == d.data
       case ArrayData(elem, index, nelems) =>
         elem < |ids| && index < |ids| && e.data == ArrayData(ids[elem], ids[index], nelems)
       case Members(ms) =>
         && e.data.Members? && |e.data.members| == |ms|
         && forall k {:trigger ms[k]} :: 0 <= k < |ms| ==>
              var m := e.data.members[k];
              NameAt(sec', m.name) == NameAt(sec, ms[k].name)
              && ms[k].ty < |ids| && m.ty == ids[ms[k].ty] && m.offset == ms[k].offset
       case Enumerators(es) =>
         && e.data.Enumerators? && |e.data.enumerators| == |es|
         && forall k {:trigger es[k]} :: 0 <= k < |es| ==>
              var v := e.data.enumerators[k];
              NameAt(sec', v.name) == NameAt(sec, es[k].name) && v.val == es[k].val
       case Params(ps) =>
         && e.data.Params? && |e.data.params| == |ps|
         && forall k {:trigger ps[k]} :: 0 <= k < |ps| ==>
              var p := e.data.params[k];
              NameAt(sec', p.name) == NameAt(sec, ps[k].name) && ps[k].ty < |ids| && p.ty == ids[ps[k].ty]
       case SecInfos(ss) =>
         && e.data.SecInfos? && |e.data.secinfos| == |ss|
         && forall k {:trigger ss[k]} :: 0 <= k < |ss| ==>
              ss[k].ty < |ids| && e.data.secinfos[k] == SecInfo(ids[ss[k].ty], ss[k].offset, ss[k].size)
  }

  /** Output type `n` is such an image of input type `j`. */
  predicate Carried(sec: seq<Octet>, g: Graph, ids: seq<nat>, sec': seq<Octet>, out: Graph, j: Id, n: nat) {
    j < |g| == |ids| && n < |out| && ids[j] == n && SameFields(sec, g[j], sec', out[n], ids)
  }

  ghost predicate HasOrigin(sec: seq<Octet>, g: Graph, ids: seq<nat>, sec': seq<Octet>, out: Graph, n: nat) {
    exists j: Id :: Carried(sec, g, ids, sec', out, j, n)
  }

  /** Every output type is such an image of an input type, reference types, variables and data
      sections of their own; and line information reads as before. */
  ghost predicate FieldsSurvive(sec: seq<Octet>, g: Graph, ls: seq<LineSec>, ids: seq<nat>, sec': seq<Octet>,
      out: Graph, ls': seq<LineSec>)
  {
    && |ids| == |g| && (forall i {:trigger ids[i]} :: 0 <= i < |g| ==> ids[i] < |out|)
    && (forall n: nat :: 0 < n < |out| ==> HasOrigin(sec, g, ids, sec', out, n))
    && (forall j {:trigger ids[j]} :: 0 <= j < |g| ==>
          g[j].info.kind in {VOID, INT, ENUM, FWD, STRUCT, UNION} || SameFields(sec, g[j], sec', out[ids[j]], ids))
    && |ls'| == |ls| && forall i {:trigger ls'[i]} :: 0 <= i < |ls| ==> SpellsLine(sec, ls[i], sec', ls'[i])
  }

  lemma SpellAndFollow(sec: seq<Octet>, d: Desc, sec': seq<Octet>, d': Desc, e: Desc, ids: seq<nat>)
    requires Spells(sec, d, sec', d') && FieldsFollow(d', e, ids)
    ensures SameFields(sec, d, sec', e, ids)
  {
    hide NameAt;
  }

  lemma FieldsCarried(sec: seq<Octet>, ts: Graph, ls: seq<LineSec>, sec': seq<Octet>, ts': Graph, ls': seq<LineSec>,
      ids: seq<nat>, out: Graph)
    requires WfGraph(ts) && AllSpelled(sec, ts, ls, sec', ts', ls') && FieldsKept(ts', ids, out)
    ensures FieldsSurvive(sec, ts, ls, ids, sec', out, ls')
  {
    hide Spells, SpellsLine, FieldsFollow, SameFields, WellFormed, Refs;
    forall n: nat | 0 < n < |out| ensures HasOrigin(sec, ts, ids, sec', out, n) {
      assert HasImage(ts', ids, out, n);
      var j: Id :| IsImage(ts', ids, out, j, n);
      assert j != 0;
      SpellAndFollow(sec, ts[j], sec', ts'[j], out[n], ids);
      assert Carried(sec, ts, ids, sec', out, j, n);
    }
    forall j {:trigger ids[j]} | 0 <= j < |ts|
      ensures ts[j].info.kind in {VOID, INT, ENUM, FWD, STRUCT, UNION} || SameFields(sec, ts[j], sec', out[ids[j]], ids)
    {
      if j > 0 {
        SpelledKind(sec, ts[j], sec', ts'[j]);
        if ts[j].info.kind !in {VOID, INT, ENUM, FWD, STRUCT, UNION} {
          SpellAndFollow(sec, ts[j], sec', ts'[j], out[ids[j]], ids);
        }
      }
    }
  }

  lemma SpelledKind(sec: seq<Octet>, d: Desc, sec': seq<Octet>, e: Desc)
    requires Spells(sec, d, sec', e)
    ensures e.info == d.info
  {
  }

  /** Copies whose structs are alike to nothing but copies share their final ids, with names as
      strings, unless forward declarations are to be resolved and there are any of a defined tag. */
  ghost predicate DuplicatesGone(sec: seq<Octet>, g: Graph, dontResolveFwds: bool, ids: seq<nat>)
    requires WfGraph(g)
  {
    dontResolveFwds || SharedNames(sec, g) == {} ==>
      forall h: Hypot {:trigger AreNamedCopies(sec, g, h)} ::
        AreNamedCopies(sec, g, h) && OnlyNamedCopies(sec, g, h) ==> ShareIds(g, h, ids)
  }

  lemma DuplicatesShare(sec: seq<Octet>, ts: Graph, ls: seq<LineSec>, sec': seq<Octet>, ts': Graph, ls': seq<LineSec>,
      es: seq<seq<Octet>>, dontResolveFwds: bool, ids: seq<nat>)
    requires WfGraph(ts) && WfGraph(ts') && SameSkeleton(ts, ts')
    requires StringDedup.Deduplicated(sec, ts, ls, sec', ts', ls', es) && CopiesMeet(ts', dontResolveFwds, ids)
    ensures DuplicatesGone(sec, ts, dontResolveFwds, ids)
  {
    SharedAlike(sec, ts, ls, sec', ts', ls', es);
    NoneShared(sec, ts, sec', ts');
    hide SameSkeleton, MovedDesc, MovedLine, Referenced, WfGraph, AreNamedCopies, OnlyNamedCopies, CopiesMeet,
        SharedTags,
        SharedNames, ShareIds, OpaqueAlike;
    assert AllMoved(sec, es, ts, ts');
    forall h: Hypot | AreNamedCopies(sec, ts, h) && OnlyNamedCopies(sec, ts, h)
        && (dontResolveFwds || SharedNames(sec, ts) == {})
      ensures ShareIds(ts, h, ids)
    {
      NamedCopiesMeet(sec, es, ts, ts', dontResolveFwds, ids, h);
    }
  }

  /** Without announced names there are no announced tags. */
  lemma NoneShared(sec: seq<Octet>, ts: Graph, sec': seq<Octet>, ts': Graph)
    requires OpaqueAlike(sec', ts', Reading(SharedTags(ts'), map[]), SharedNames(sec, ts))
    ensures SharedNames(sec, ts) == {} ==> SharedTags(ts') == {}
  {
    hide SharedNames, TagOf, Announces;
    if SharedNames(sec, ts) == {} {
      assert forall t :: t !in SharedTags(ts');
    }
  }

  /** What survives. Names, tags and line information do. Every type keeps its meaning down to
      the tags that are both announced and defined, and through them exactly if no forward
      declaration has become a definition, which the input decides but for announced structs
      with twins. No two descriptors that are compared as a whole are
      left identical. */
  ghost predicate Survives(sec: seq<Octet>, g: Graph, ls: seq<LineSec>, dontResolveFwds: bool, ids: seq<nat>,
      sec': seq<Octet>, out: Graph, ls': seq<LineSec>)
    requires WfGraph(g)
  {
    && FieldsSurvive(sec, g, ls, ids, sec', out, ls')
    && NamedAlike(sec, g, ids, sec', out)
    && LinesAlike(sec, ls, sec', ls')
    && ReadsAlike(sec, g, SharedNames(sec, g), ids, sec', out)
    && (ReadsAlike(sec, g, {}, ids, sec', out) <==> Meaning.ForwardsStay(g, ids, out))
    && (dontResolveFwds ==> Meaning.ForwardsStay(g, ids, out))
    && (!dontResolveFwds ==> InputDecidesNamed(sec, g, Meaning.ForwardsStay(g, ids, out)))
    && ValuesDistinct(out)
    && DuplicatesGone(sec, g, dontResolveFwds, ids)
  }

  /** The passes over the types. Every coherent reading is kept, and types as they stand exactly
      if no forward declaration has become a definition. */
  method DedupTypes(types: seq<Desc>, dontResolveFwds: bool, tableSize: nat)
      returns (err: int, out: seq<Desc>, ghost ids: seq<nat>, ghost exact: bool)
    requires WfGraph(types)
    ensures err == 0 || err == -EINVAL || err == -D.ELOOP
    ensures err == 0 ==> !HasVoid(types) && !RefPass.HasRefCycle(types)
    ensures err == -EINVAL ==> D.Malformed(types)
    ensures err == -D.ELOOP ==> RefPass.HasRefCycle(types)
    ensures err == 0 ==> exists order :: RefPass.Topological(types, order) && RefPass.AllOrdered(types, order)
    ensures err == 0 ==> FieldsKept(types, ids, out) && CopiesMeet(types, dontResolveFwds, ids)
    ensures err == 0 ==> |out| <= |types| && Meaning.KeepsTags(types, ids, out) && ValuesDistinct(out)
    ensures err == 0 ==>
        exact == (dontResolveFwds || Meaning.ForwardsStay(types, ids, out))
        && Meaning.KeepsReadings(types, exact, ids, out)
    ensures err == 0 ==> (Meaning.KeepsMeaning(types, PLAIN, ids, out) <==> Meaning.ForwardsStay(types, ids, out))
    ensures err == 0 && !dontResolveFwds ==> D.InputDecides(types, Meaning.ForwardsStay(types, ids, out))
    ensures err == 0 ==> Meaning.KeepsMeaning(types, Reading(SharedTags(types), map[]), ids, out)
    ensures err == 0 ==> forall r {:trigger OneMeaning(types, r)} :: OneMeaning(types, r) ==>
        Meaning.KeepsMeaning(types, r, ids, out)
  {
    hide RefPass.Topological, RefPass.AllOrdered, OneMeaning, SharedTags, WfGraph, HasVoid, D.Malformed,
        RefPass.HasRefCycle, FieldsKept, ValuesDistinct, Meaning.KeepsMeaning, Meaning.KeepsTags, Meaning.KeepsReadings,
         Meaning.ForwardsStay, Meaning.Deduplicated, D.StructPass, D.MapKept, D.IsInitial, D.InputDecides;
    out, ids, exact := [], [], false;
    var d := new D.Dedup(types, dontResolveFwds, tableSize);
    err := d.Run();
    if err == 0 {
      out := d.types[..d.nrTypes + 1];
      ids := d.FinalIds();
      exact := d.strong;
      CopiesGone(types, dontResolveFwds, exact, d.idMap[..], d.hypotMap[..], out, d.finished);
      ReadingsKept(types, exact, ids, out);
    }
  }

  /** The readings that are always kept: with announced tags opaque, and, if the definitions of
      each announced tag mean the same, with forward declarations read as their definitions. */
  lemma ReadingsKept(g: Graph, exact: bool, ids: seq<nat>, out: Graph)
    requires WfGraph(g) && Meaning.KeepsReadings(g, exact, ids, out)
    ensures Meaning.KeepsMeaning(g, Reading(SharedTags(g), map[]), ids, out)
    ensures forall r {:trigger OneMeaning(g, r)} :: OneMeaning(g, r) ==> Meaning.KeepsMeaning(g, r, ids, out)
  {
    hide Coherent, OneMeaning, SharedTags, WfGraph, Meaning.KeepsMeaning;
    OutlineCoherent(g, exact);
    forall r | OneMeaning(g, r) ensures Meaning.KeepsMeaning(g, r, ids, out) {
      DefinitionsCoherent(g, exact, r);
    }
  }

  /** `btf__dedup`: strings first, then the types. It fails only for a string offset that starts
      no string, for malformed types or for a cycle of reference types, and never goes through
      with a stray void, a lost string or such a cycle. */
  method BtfDedup(section: StringSection, dontResolveFwds: bool, tableSize: nat)
      returns (err: int, out: seq<Desc>, ghost ids: seq<nat>)
    requires WfSection(section.strings) && WfGraph(section.types[..])
    modifies section, section.types, section.lines
    ensures err == 0 || err == -EINVAL || err == -D.ELOOP
    ensures err == 0 ==> StringsFound(old(section.strings), old(section.types[..]), old(section.lines[..]))
    ensures err == 0 ==> !HasVoid(old(section.types[..])) && !RefPass.HasRefCycle(old(section.types[..]))
    ensures err == -EINVAL ==>
      D.Malformed(old(section.types[..]))
          || !StringsFound(old(section.strings), old(section.types[..]), old(section.lines[..]))
    ensures err == -D.ELOOP ==> RefPass.HasRefCycle(old(section.types[..]))
    ensures err == 0 ==>
        WfSection(section.strings) && |section.strings| <= |old(section.strings)|
        && |out| <= |old(section.types[..])|
    ensures err == 0 ==> Survives(old(section.strings), old(section.types[..]), old(section.lines[..]), dontResolveFwds,
        ids,
                                  section.strings, out, section.lines[..])
  {
    hide WfSection, WfGraph, HasVoid, D.Malformed, RefPass.HasRefCycle, StringDedup.Deduplicated, Survives,
        StringsFound,
         ValuesDistinct, FieldsKept, AllSpelled, CopiesMeet, Meaning.KeepsMeaning, Meaning.KeepsTags,
             Meaning.KeepsReadings,
         Meaning.ForwardsStay,
             SameSkeleton, D.IsInitial, D.InputDecides;
    out, ids := [], [];
    ghost var sec, ts, ls := section.strings, section.types[..], section.lines[..];
    assert section.types.Length > 0 by { GraphStarts(ts); }
    err := section.DedupStrings();
    FoundDecides(sec, ts, ls);
    if err != 0 {
      return;
    }
    ghost var sec', ts', ls' := section.strings, section.types[..], section.lines[..];
    ghost var es :| StringDedup.Deduplicated(sec, ts, ls, sec', ts', ls', es);
    StringsKeepGraph(sec, ts, ls, sec', ts', ls', es);
    StringsKeepSkeleton(sec, ts, ls, sec', ts', ls', es);
    SkeletonDecides(ts, ts');
    ghost var exact;
    err, out, ids, exact := DedupTypes(section.types[..], dontResolveFwds, tableSize);
    if err == 0 {
      AllSurvives(sec, ts, ls, sec', ts', ls', es, dontResolveFwds, exact, ids, out);
    }
  }

  /** Every visited string offset starts a string. */
  ghost predicate StringsFound(sec: seq<Octet>, ts: seq<Desc>, ls: seq<LineSec>) {
    WfSection(sec) && forall c :: c in Cells(ts, ls) ==> c == 0 || c in Starts(sec, 0)
  }

  lemma FoundDecides(sec: seq<Octet>, ts: seq<Desc>, ls: seq<LineSec>)
    requires WfSection(sec)
    ensures StringsFound(sec, ts, ls) <==> forall c :: c in Cells(ts, ls) ==> c == 0 || c in Starts(sec, 0)
  {
  }

  lemma GraphStarts(g: Graph)
    requires WfGraph(g)
    ensures |g| > 0 && g[0] == VOID_DESC
  {
  }

  lemma NamesKept(sec: seq<Octet>, ts: Graph, ls: seq<LineSec>, sec': seq<Octet>, ts': Graph, ls': seq<LineSec>,
      es: seq<seq<Octet>>, ids: seq<nat>, out: Graph)
    requires WfGraph(ts) && WfGraph(ts') && WfSection(sec) && WfSection(sec')
    requires StringDedup.Deduplicated(sec, ts, ls, sec', ts', ls', es) && SameSkeleton(ts, ts')
        && Meaning.KeepsTags(ts', ids, out)
    ensures NamedAlike(sec, ts, ids, sec', out)
  {
    hide WellFormed, WfGraph, Refs, StringDedup.Deduplicated, WfSection, Blank;
    assert |ts'| == |ts|;
    forall i | 0 <= i < |ts|
      ensures ids[i] < |out| && TagOf(out[ids[i]]).kind == TagOf(ts[i]).kind
          && NameAt(sec', out[ids[i]].name) == NameAt(sec, ts[i].name)
    {
      DescReads(sec, ts, ls, sec', ts', ls', es, i);
      assert NamesAt(sec', Names(ts'[i]))[0] == NamesAt(sec, Names(ts[i]))[0];
    }
  }

  lemma AllSurvives(sec: seq<Octet>, ts: Graph, ls: seq<LineSec>, sec': seq<Octet>, ts': Graph, ls': seq<LineSec>,
      es: seq<seq<Octet>>,
                    dontResolveFwds: bool, exact: bool, ids: seq<nat>, out: Graph)
    requires WfGraph(ts) && WfGraph(ts') && WfSection(sec) && WfSection(sec')
    requires StringDedup.Deduplicated(sec, ts, ls, sec', ts', ls', es) && SameSkeleton(ts, ts')
    requires Meaning.KeepsTags(ts', ids, out) && Meaning.KeepsReadings(ts', exact, ids, out) && ValuesDistinct(out)
    requires AllSpelled(sec, ts, ls, sec', ts', ls') && FieldsKept(ts', ids, out)
    requires CopiesMeet(ts', dontResolveFwds, ids)
    requires Meaning.KeepsMeaning(ts', PLAIN, ids, out) <==> Meaning.ForwardsStay(ts', ids, out)
    requires dontResolveFwds ==> exact
    requires !dontResolveFwds ==> D.InputDecides(ts', Meaning.ForwardsStay(ts', ids, out))
    ensures Survives(sec, ts, ls, dontResolveFwds, ids, sec', out, ls')
  {
    hide WfGraph, WfSection, StringDedup.Deduplicated, SameSkeleton, NamedAlike, LinesAlike, ReadsAlike, ValuesDistinct,
        AllSpelled, FieldsKept, FieldsSurvive, CopiesMeet, DuplicatesGone,
        SharedNames, Coherent,
         Meaning.KeepsMeaning, Meaning.KeepsTags, Meaning.ForwardsStay, InputDecidesNamed, D.InputDecides;
    SkeletonDecides(ts, ts');
    FieldsCarried(sec, ts, ls, sec', ts', ls', ids, out);
    DuplicatesShare(sec, ts, ls, sec', ts', ls', es, dontResolveFwds, ids);
    if !dontResolveFwds {
      DecidedByNames(sec, ts, ls, sec', ts', ls', es, Meaning.ForwardsStay(ts', ids, out));
    }
    LinesKept(sec, ts, ls, sec', ts', ls', es);
    NamesKept(sec, ts, ls, sec', ts', ls', es, ids, out);
    OutlinesKept(sec, ts, ls, sec', ts', ls', es, exact, ids, out);
    PlainKept(sec, ts, ls, sec', ts', ls', es, ids, out);
    if dontResolveFwds {
      PlainCoherent(ts', true);
    }
  }

  lemma LinesKept(sec: seq<Octet>, ts: Graph, ls: seq<LineSec>, sec': seq<Octet>, ts': Graph, ls': seq<LineSec>,
      es: seq<seq<Octet>>)
    requires StringDedup.Deduplicated(sec, ts, ls, sec', ts', ls', es)
    ensures LinesAlike(sec, ls, sec', ls')
  {
    hide LineNames, MovedDesc, Join, Ascending, Referenced, Moved;
    forall i | 0 <= i < |ls| ensures NamesAt(sec', LineNames(ls'[i])) == NamesAt(sec, LineNames(ls[i])) {
      assert MovedLine(sec, es, ls[i], ls'[i]);
      forall k | 0 <= k < |LineNames(ls[i])|
        ensures NameAt(sec', LineNames(ls'[i])[k]) == NameAt(sec, LineNames(ls[i])[k])
      {
        MovedInSection(sec, es, LineNames(ls[i])[k], LineNames(ls'[i])[k]);
      }
    }
  }

  lemma MeaningKept(sec: seq<Octet>, ts: Graph, ls: seq<LineSec>, sec': seq<Octet>, ts': Graph, ls': seq<LineSec>,
      es: seq<seq<Octet>>,
                    r: Reading, ops: set<NamedTag>, ids: seq<nat>, out: Graph)
    requires WfGraph(ts) && WfSection(sec) && WfSection(sec')
    requires StringDedup.Deduplicated(sec, ts, ls, sec', ts', ls', es) && SameSkeleton(ts, ts')
    requires Meaning.KeepsMeaning(ts', r, ids, out) && OpaqueAlike(sec', ts', r, ops)
    ensures ReadsAlike(sec, ts, ops, ids, sec', out)
  {
    hide WfGraph, Refs, WfSection, StringDedup.Deduplicated, OpaqueAlike;
    assert |ids| == |ts'| == |ts|;
    forall i: Id | i < |ts| ensures ids[i] < |out| && SameNamed(sec, ts, i, sec', out, ids[i], ops) {
      DedupPreservesNamedMeaning(sec, ts, ls, sec', ts', ls', es, r, ops, ids, out, i, 0);
      forall n: nat ensures UnfoldNamed(sec', out, ops, ids[i], n) == UnfoldNamed(sec, ts, ops, i, n) {
        DedupPreservesNamedMeaning(sec, ts, ls, sec', ts', ls', es, r, ops, ids, out, i, n);
      }
    }
  }

  /** Down to the tags that are both announced and defined, meanings are always kept. */
  lemma OutlinesKept(sec: seq<Octet>, ts: Graph, ls: seq<LineSec>, sec': seq<Octet>, ts': Graph, ls': seq<LineSec>,
      es: seq<seq<Octet>>,
                     exact: bool, ids: seq<nat>, out: Graph)
    requires WfGraph(ts) && WfGraph(ts') && WfSection(sec) && WfSection(sec')
    requires StringDedup.Deduplicated(sec, ts, ls, sec', ts', ls', es) && SameSkeleton(ts, ts')
    requires Meaning.KeepsReadings(ts', exact, ids, out)
    ensures ReadsAlike(sec, ts, SharedNames(sec, ts), ids, sec', out)
  {
    hide WfGraph, Refs, WfSection, StringDedup.Deduplicated, OpaqueAlike, SameSkeleton, SharedNames, ReadsAlike,
        Coherent, Meaning.KeepsMeaning;
    OutlineCoherent(ts', exact);
    SharedAlike(sec, ts, ls, sec', ts', ls', es);
    MeaningKept(sec, ts, ls, sec', ts', ls', es, Reading(SharedTags(ts'), map[]), SharedNames(sec, ts), ids, out);
  }

  /** Meanings as they stand are kept exactly if no forward declaration has become a definition. */
  lemma PlainKept(sec: seq<Octet>, ts: Graph, ls: seq<LineSec>, sec': seq<Octet>, ts': Graph, ls': seq<LineSec>,
      es: seq<seq<Octet>>,
                  ids: seq<nat>, out: Graph)
    requires WfGraph(ts) && WfGraph(ts') && WfSection(sec) && WfSection(sec')
    requires StringDedup.Deduplicated(sec, ts, ls, sec', ts', ls', es) && SameSkeleton(ts, ts')
    requires Meaning.ForwardsStay(ts, ids, out) ==> Meaning.KeepsMeaning(ts', PLAIN, ids, out)
    ensures ReadsAlike(sec, ts, {}, ids, sec', out) <==> Meaning.ForwardsStay(ts, ids, out)
  {
    hide WfGraph, Refs, WfSection, StringDedup.Deduplicated, SameSkeleton, Meaning.KeepsMeaning, Blank, Names, NamesAt,
        FwdLike;
    if Meaning.ForwardsStay(ts, ids, out) {
      assert OpaqueAlike(sec', ts', PLAIN, {});
      MeaningKept(sec, ts, ls, sec', ts', ls', es, PLAIN, {}, ids, out);
    } else if ReadsAlike(sec, ts, {}, ids, sec', out) {
      forall i | 0 <= i < |ts| && FwdLike(ts[i]) ensures ids[i] < |out| && FwdLike(out[ids[i]]) {
        assert SameNamed(sec, ts, i, sec', out, ids[i], {});
        assert UnfoldNamed(sec', out, {}, ids[i], 1).blank == UnfoldNamed(sec, ts, {}, i, 1).blank;
        BlankInfo(ts[i]);
        BlankInfo(out[ids[i]]);
        Meaning.FwdByInfo(out[ids[i]], ts[i]);
      }
    }
  }
}
