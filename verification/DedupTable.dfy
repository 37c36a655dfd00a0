/** The candidates table `btf_dedup.dedup_table`: canonical ids filed under their signature. */
module DedupTable {
  import opened BtfTypes
  import opened TypeGraph
  import opened CanonMap
  import HashMaps

  type File = HashMaps.Entry<nat, Id>

  /** `btf_dedup_identity_hash_fn` */
  function Identity(key: nat): nat { key }

  /** `btf_dedup_collision_hash_fn`, which puts every signature in one bucket. */
  function Collide(key: nat): nat { 0 }

  ghost predicate Filed(g: Graph, m: IdMap, e: File)
    requires |m| == |g|
  {
    && 0 < e.value < |g|
    && WellFormed(g[e.value])
    && e.key == Signature(g[e.value])
    && m[e.value] < |g|
    && Target(g, m, e.value)
  }

  ghost function Unmapped(m: IdMap): set<nat> {
    set i | 0 <= i < |m| && !Mapped(m[i])
  }

  /** There is at most one entry for every mapped id. */
  ghost predicate Roomy(m: IdMap, entries: multiset<File>) {
    |entries| + |Unmapped(m)| <= |m|
  }

  lemma RoomyStays(m: IdMap, m': IdMap, entries: multiset<File>)
    requires |m| == |m'| && Roomy(m, entries) && Unmapped(m') <= Unmapped(m)
    ensures Roomy(m', entries)
  {
    SubsetSize(Unmapped(m'), Unmapped(m));
  }

  lemma RoomyAdds(m: IdMap, i: Id, e: File, entries: multiset<File>)
    requires i < |m| <= MAX_NR_TYPES + 1 && !Mapped(m[i]) && Roomy(m, entries)
    ensures Roomy(m[i := i], entries + multiset{e})
  {
    assert Unmapped(m[i := i]) == Unmapped(m) - {i};
    assert i in Unmapped(m);
  }

  lemma SubsetSize(a: set<nat>, b: set<nat>)
    requires a <= b
    ensures |a| <= |b|
  {
    assert b == a + (b - a);
  }

  /** Nothing filed, whatever is mapped. */
  lemma {:induction false} RoomyEmpty(m: IdMap)
    ensures Roomy(m, multiset{})
  {
    if m == [] {
      assert Unmapped(m) == {};
    } else {
      var n := |m| - 1;
      RoomyEmpty(m[..n]);
      assert Unmapped(m) == Unmapped(m[..n]) + if Mapped(m[n]) then {} else {n};
    }
  }

  ghost predicate TableOk(g: Graph, m: IdMap, entries: multiset<File>)
    requires |m| == |g|
  {
    && Roomy(m, entries)
    && (forall e :: e in entries ==> Filed(g, m, e))
    && (forall i {:trigger m[i]} :: 0 < i < |g| && m[i] == i && IsDedupKind(g[i].info.kind) ==>
        WellFormed(g[i]) && HashMaps.Entry(Signature(g[i]), i) in entries)
    && (forall e, e' ::
          e in entries && e' in entries && IsDedupKind(g[e.value].info.kind) && g[e.value] == g[e'.value] ==>
            e.value == e'.value)
  }

  /** Merging a hypothetical map keeps the table. */
  lemma TableEvolves(g: Graph, m: IdMap, m': IdMap, entries: multiset<File>)
    requires |m| == |g| <= MAX_NR_TYPES + 1 && TableOk(g, m, entries) && Evolves(g, m, m')
    ensures TableOk(g, m', entries)
  {
    hide WellFormed, Signature, Roomy;
    RoomyStays(m, m', entries);
    forall e | e in entries ensures Filed(g, m', e) {
      assert Filed(g, m, e);
    }
    forall i | 0 < i < |g| && m'[i] == i && IsDedupKind(g[i].info.kind)
      ensures WellFormed(g[i]) && HashMaps.Entry(Signature(g[i]), i) in entries
    {
      assert m'[i] == m[i];
    }
  }

  /** An id that was mapped to another one does not enter the table. */
  lemma TableMapped(g: Graph, m: IdMap, i: Id, j: Id, entries: multiset<File>)
    requires |m| == |g| <= MAX_NR_TYPES + 1 && i < |g| && !Mapped(m[i]) && j != i && TableOk(g, m, entries)
    ensures TableOk(g, m[i := j], entries)
  {
    hide WellFormed, Signature, Roomy;
    RoomyStays(m, m[i := j], entries);
    forall e | e in entries ensures Filed(g, m[i := j], e) {
      assert Filed(g, m, e);
    }
  }

  /** A new canonical id, filed under its signature. */
  lemma TableAdds(g: Graph, m: IdMap, i: Id, entries: multiset<File>)
    requires |m| == |g| <= MAX_NR_TYPES + 1 && 0 < i < |g| && !Mapped(m[i]) && WellFormed(g[i])
        && TableOk(g, m, entries)
    requires forall e :: e in entries ==> g[e.value] != g[i]
    ensures TableOk(g, m[i := i], entries + multiset{HashMaps.Entry(Signature(g[i]), i)})
  {
    hide WellFormed, Signature, Roomy;
    var new' := HashMaps.Entry(Signature(g[i]), i);
    RoomyAdds(m, i, new', entries);
    var entries' := entries + multiset{new'};
    forall e | e in entries' ensures Filed(g, m[i := i], e) {
      if e != new' {
        assert e in entries;
        assert Filed(g, m, e);
      }
    }
    forall e, e' | e in entries' && e' in entries' && IsDedupKind(g[e.value].info.kind) && g[e.value] == g[e'.value]
      ensures e.value == e'.value
    {
      assert e == new' || e in entries;
      assert e' == new' || e' in entries;
    }
  }

  /** Descriptors in progress are not in the table, so rewriting them does not disturb it. */
  lemma TableRewritten(g: Graph, m: IdMap, i: Id, d: Desc, entries: multiset<File>)
    requires |m| == |g| <= MAX_NR_TYPES + 1 && i < |g| && !Mapped(m[i]) && TableOk(g, m, entries) && d.info == g[i].info
    ensures TableOk(g[i := d], m, entries)
  {
    hide WellFormed, Signature, Roomy;
    forall e | e in entries ensures Filed(g[i := d], m, e) {
      assert Filed(g, m, e);
    }
  }

  lemma TableFits(g: Graph, m: IdMap, entries: multiset<File>)
    requires |m| == |g| <= MAX_NR_TYPES + 1 && TableOk(g, m, entries)
    ensures |entries| <= MAX_NR_TYPES + 1
  {
  }

  /** With at most one filed id for a descriptor, equal canonical descriptors are one. */
  lemma CanonicalUnique(g: Graph, m: IdMap, entries: multiset<File>, a: Id, b: Id)
    requires |m| == |g| && TableOk(g, m, entries)
    requires 0 < a < |g| && 0 < b < |g| && m[a] == a && m[b] == b
    requires IsDedupKind(g[a].info.kind) && g[a] == g[b]
    ensures a == b
  {
    assert HashMaps.Entry(Signature(g[a]), a) in entries;
    assert HashMaps.Entry(Signature(g[b]), b) in entries;
  }

  /** No two canonical descriptors are identical. */
  ghost predicate CanonicalDistinct(g: Graph, m: IdMap)
    requires |m| == |g|
  {
    forall a, b {:trigger g[a], g[b]} ::
        0 < a < |g| && 0 < b < |g| && m[a] == a && m[b] == b && IsDedupKind(g[a].info.kind) && g[a] == g[b] ==> a == b
  }

  lemma TableDistinct(g: Graph, m: IdMap, entries: multiset<File>)
    requires |m| == |g| && TableOk(g, m, entries)
    ensures CanonicalDistinct(g, m)
  {
    hide Signature, WellFormed, TableOk;
    forall a, b {:trigger g[a], g[b]} | 0 < a < |g| && 0 < b < |g| && m[a] == a && m[b] == b
        && IsDedupKind(g[a].info.kind) && g[a] == g[b]
      ensures a == b
    {
      CanonicalUnique(g, m, entries, a, b);
    }
  }
}
