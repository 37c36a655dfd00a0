/** The chained hash table of libbpf (hashmap.c, hashmap.h).

    A table is a row of buckets, each a chain of entries. Insertion pushes to the
    front of a chain; growth walks every chain and pushes each entry to the front of
    its new chain. The same table serves as a map (ADD, SET, UPDATE) and as a
    multimap (APPEND), so its contents are stated as a multiset of entries. */
module HashMaps {
  import opened Basics
  import opened Multisets
  import opened Words

  datatype Entry<K, V> = Entry(key: K, value: V)

  datatype Strategy = ADD | SET | UPDATE | APPEND

  const EEXIST: int := 17
  const ENOENT: int := 2
  const ENOMEM: int := 12

  /** `hashmap_grow` never makes fewer than four buckets. */
  const MIN_CAP_BITS: nat := 2

  /** The largest row of pointers that `calloc` could provide on a 64-bit machine. */
  const MAX_CAP_BITS: nat := 60

  /** The 64-bit multiplication of `hash_bits`, which wraps. */
  function Shuffle(h: nat): (r: nat)
    ensures r < TWO_64
  {
    (h * 11400714819323198485) % TWO_64
  }

  /** The upper `bits` bits of a 64-bit word. */
  function UpperBits(x: nat, bits: nat): (r: nat)
    requires bits <= 64 && x < TWO_64
    ensures r < Pow2(bits)
  {
    hide Pow2;
    UpperBitsFit(x, bits);
    x / Pow2(64 - bits)
  }

  /** `hash_bits`: shuffle, then keep the upper bits. With no bits to keep the source shifts a
      64-bit value by 64, which C leaves undefined; 0 stands for that value here. Nothing depends
      on it: `bits` is 0 only as long as there are no buckets to select from. */
  function HashBits(h: nat, bits: nat): (r: nat)
    requires bits <= 64
    ensures r < Pow2(bits)
  {
    UpperBits(Shuffle(h), bits)
  }

  lemma UpperBitsFit(x: nat, bits: nat)
    requires bits <= 64 && x < TWO_64
    ensures x / Pow2(64 - bits) < Pow2(bits)
  {
    Pow2Constants();
    Pow2Adds(64 - bits, bits);
    hide Pow2;
    var d, q := Pow2(64 - bits), x / Pow2(64 - bits);
    assert q * d <= x by { QuotientBelow(x, d); }
    if q >= Pow2(bits) {
      QuotientTooBig(q, d, Pow2(bits));
      assert false;
    }
  }

  lemma QuotientBelow(x: nat, d: nat)
    requires d > 0
    ensures (x / d) * d <= x
  {
  }

  lemma QuotientTooBig(q: nat, d: nat, p: nat)
    requires q >= p
    ensures q * d >= p * d
  {
  }

  // ---------------------------------------------------------------- chains and rows of chains

  /** All entries in iteration order (`hashmap__for_each_entry`). */
  function Concat<T>(bs: seq<seq<T>>): seq<T> {
    if bs == [] then [] else Concat(bs[..|bs| - 1]) + bs[|bs| - 1]
  }

  ghost function Contents<T>(bs: seq<seq<T>>): multiset<T> {
    multiset(Concat(bs))
  }

  lemma {:induction false} ConcatUpdate<T>(bs: seq<seq<T>>, b: nat, c: seq<T>)
    requires b < |bs|
    ensures Contents(bs[b := c]) + multiset(bs[b]) == Contents(bs) + multiset(c)
  {
    var n := |bs| - 1;
    if b == n {
      assert bs[b := c][..n] == bs[..n];
    } else {
      ConcatUpdate(bs[..n], b, c);
      assert bs[b := c][..n] == bs[..n][b := c];
      AddToBoth(Contents(bs[..n][b := c]), multiset(bs[b]), Contents(bs[..n]), multiset(c), multiset(bs[n]));
    }
  }

  lemma {:induction false} ConcatMember<T>(bs: seq<seq<T>>, e: T)
    ensures e in Concat(bs) <==> exists b :: 0 <= b < |bs| && e in bs[b]
  {
    if bs != [] {
      var n := |bs| - 1;
      ConcatMember(bs[..n], e);
      assert forall b :: 0 <= b < n ==> bs[..n][b] == bs[b];
    }
  }

  /** An entry that only one bucket can hold is counted by that bucket alone. */
  lemma {:induction false} ConcatCount<T>(bs: seq<seq<T>>, b: nat, e: T)
    requires b < |bs|
    requires forall c :: 0 <= c < |bs| && c != b ==> e !in bs[c]
    ensures Contents(bs)[e] == multiset(bs[b])[e]
  {
    var n := |bs| - 1;
    if b == n {
      ConcatMember(bs[..n], e);
    } else {
      ConcatCount(bs[..n], b, e);
    }
  }

  lemma {:induction false} ConcatEmpty<T>(n: nat)
    ensures Concat<T>(seq(n, _ => [])) == []
  {
    if n > 0 {
      ConcatEmpty<T>(n - 1);
      var bs: seq<seq<T>> := seq(n, _ => []);
      assert bs[..n - 1] == seq(n - 1, _ => []);
    }
  }

  /** The entries of a chain whose key is identified with `i`, in chain order. */
  function Matching<K, I(==), V>(ident: K -> I, s: seq<Entry<K, V>>, i: I): seq<Entry<K, V>> {
    if s == [] then []
    else (if ident(s[0].key) == i then [s[0]] else []) + Matching(ident, s[1..], i)
  }

  lemma {:induction false} MatchingCount<K, I, V>(ident: K -> I, s: seq<Entry<K, V>>, i: I, e: Entry<K, V>)
    ensures multiset(Matching(ident, s, i))[e] == if ident(e.key) == i then multiset(s)[e] else 0
  {
    if s != [] {
      MatchingCount(ident, s[1..], i, e);
      assert s == [s[0]] + s[1..];
    }
  }

  lemma {:induction false} MatchingAppend<K, I, V>(ident: K -> I, s: seq<Entry<K, V>>, t: seq<Entry<K, V>>, i: I)
    ensures Matching(ident, s + t, i) == Matching(ident, s, i) + Matching(ident, t, i)
  {
    if s == [] {
      assert s + t == t;
    } else {
      MatchingAppend(ident, s[1..], t, i);
      assert (s + t)[1..] == s[1..] + t;
    }
  }

  lemma {:induction false} MatchingReverse<K, I, V>(ident: K -> I, s: seq<Entry<K, V>>, i: I)
    ensures Matching(ident, Reverse(s), i) == Reverse(Matching(ident, s, i))
  {
    if s != [] {
      MatchingReverse(ident, s[1..], i);
      MatchingAppend(ident, Reverse(s[1..]), [s[0]], i);
      var rest := Matching(ident, s[1..], i);
      assert ([s[0]] + rest)[1..] == rest;
      assert Reverse([s[0]] + rest) == Reverse(rest) + [s[0]];
      assert [] + rest == rest;
      assert Matching(ident, [s[0]], i) == if ident(s[0].key) == i then [s[0]] else [];
    }
  }

  // ---------------------------------------------------------------- growth as a function

  function BucketOf<K, I, V>(ident: K -> I, hash: I -> nat, e: Entry<K, V>, bits: nat): nat
    requires bits <= 64
  {
    HashBits(hash(ident(e.key)), bits)
  }

  /** Pushing entries one by one to the front of their chains. */
  function Spread<K, I, V>(ident: K -> I, hash: I -> nat, es: seq<Entry<K, V>>, bits: nat): (bs: seq<seq<Entry<K, V>>>)
    requires bits <= 64
    ensures |bs| == Pow2(bits)
  {
    if es == [] then seq(Pow2(bits), _ => [])
    else
      var bs := Spread(ident, hash, es[..|es| - 1], bits);
      var h := BucketOf(ident, hash, es[|es| - 1], bits);
      bs[h := [es[|es| - 1]] + bs[h]]
  }

  lemma {:induction false} SpreadContents<K, I, V>(ident: K -> I, hash: I -> nat, es: seq<Entry<K, V>>, bits: nat)
    requires bits <= 64
    ensures Contents(Spread(ident, hash, es, bits)) == multiset(es)
  {
    hide HashBits, Pow2;
    if es == [] {
      ConcatEmpty<Entry<K, V>>(Pow2(bits));
    } else {
      var n := |es| - 1;
      SpreadContents(ident, hash, es[..n], bits);
      var bs := Spread(ident, hash, es[..n], bits);
      var h := BucketOf(ident, hash, es[n], bits);
      ConcatUpdate(bs, h, [es[n]] + bs[h]);
      assert es == es[..n] + [es[n]];
      assert multiset([es[n]] + bs[h]) == multiset{es[n]} + multiset(bs[h]);
      Cancel(Contents(Spread(ident, hash, es, bits)), multiset(bs[h]), multiset(es));
    }
  }

  lemma SpreadNothing<K, I, V>(ident: K -> I, hash: I -> nat, bits: nat, bs: seq<seq<Entry<K, V>>>)
    requires bits <= 64 && bs == seq(Pow2(bits), _ => [])
    ensures Spread(ident, hash, [], bits) == bs
  {
    hide HashBits, Pow2;
  }

  lemma SpreadAppend<K, I, V>(ident: K -> I, hash: I -> nat, es: seq<Entry<K, V>>, e: Entry<K, V>, bits: nat)
    requires bits <= 64
    ensures var h, bs := BucketOf(ident, hash, e, bits), Spread(ident, hash, es, bits);
            Spread(ident, hash, es + [e], bits) == bs[h := [e] + bs[h]]
  {
    hide HashBits, Pow2;
    assert (es + [e])[..|es|] == es;
  }

  /** The entries that hash to bucket `h`, in order. */
  function InBucket<K, I, V>(ident: K -> I, hash: I -> nat, es: seq<Entry<K, V>>, bits: nat, h: nat): seq<Entry<K, V>>
    requires bits <= 64
  {
    if es == [] then []
    else
      InBucket(ident, hash, es[..|es| - 1], bits, h) +
      if BucketOf(ident, hash, es[|es| - 1], bits) == h then [es[|es| - 1]] else []
  }

  /** Growth reverses the relative order of the entries that share a new bucket. */
  lemma {:induction false} SpreadReverses<K, I,
      V>(ident: K -> I, hash: I -> nat, es: seq<Entry<K, V>>, bits: nat, h: nat)
    requires bits <= 64 && h < Pow2(bits)
    ensures Spread(ident, hash, es, bits)[h] == Reverse(InBucket(ident, hash, es, bits, h))
  {
    hide HashBits, Pow2;
    if es != [] {
      var n := |es| - 1;
      SpreadReverses(ident, hash, es[..n], bits, h);
      if BucketOf(ident, hash, es[n], bits) == h {
        ReverseAppend(InBucket(ident, hash, es[..n], bits, h), es[n]);
      } else {
        assert InBucket(ident, hash, es, bits, h) == InBucket(ident, hash, es[..n], bits, h);
      }
    }
  }

  lemma {:induction false} SpreadPlacement<K, I, V>(ident: K -> I, hash: I -> nat, es: seq<Entry<K, V>>, bits: nat)
    requires bits <= 64
    ensures InPlace(ident, hash, Spread(ident, hash, es, bits), bits)
  {
    hide HashBits, Pow2;
    if es != [] {
      SpreadPlacement(ident, hash, es[..|es| - 1], bits);
    }
  }

  /** Every entry sits in the bucket its hash selects. */
  ghost predicate InPlace<K, I, V>(ident: K -> I, hash: I -> nat, bs: seq<seq<Entry<K, V>>>, bits: nat)
    requires bits <= 64
  {
    forall b, e :: 0 <= b < |bs| && e in bs[b] ==> BucketOf(ident, hash, e, bits) == b
  }

  lemma InPlaceUpdate<K, I,
      V>(ident: K -> I, hash: I -> nat, bs: seq<seq<Entry<K, V>>>, bits: nat, b: nat, c: seq<Entry<K, V>>)
    requires bits <= 64 && InPlace(ident, hash, bs, bits) && b < |bs|
    requires forall e :: e in c ==> BucketOf(ident, hash, e, bits) == b
    ensures InPlace(ident, hash, bs[b := c], bits)
  {
    hide HashBits;
    var bs' := bs[b := c];
    forall k, e | 0 <= k < |bs'| && e in bs'[k] ensures BucketOf(ident, hash, e, bits) == k {
      if k != b {
        assert e in bs[k];
      }
    }
  }

  lemma {:induction false} MatchingInBucket<K, I,
      V>(ident: K -> I, hash: I -> nat, es: seq<Entry<K, V>>, bits: nat, i: I)
    requires bits <= 64
    ensures Matching(ident, InBucket(ident, hash, es, bits, HashBits(hash(i), bits)), i) == Matching(ident, es, i)
  {
    hide HashBits, Pow2;
    if es != [] {
      var n := |es| - 1;
      var h := HashBits(hash(i), bits);
      MatchingInBucket(ident, hash, es[..n], bits, i);
      assert es == es[..n] + [es[n]];
      MatchingAppend(ident, es[..n], [es[n]], i);
      if BucketOf(ident, hash, es[n], bits) == h {
        MatchingAppend(ident, InBucket(ident, hash, es[..n], bits, h), [es[n]], i);
      } else {
        assert InBucket(ident, hash, es, bits, h) == InBucket(ident, hash, es[..n], bits, h);
      }
    }
  }

  lemma {:induction false} MatchingConcat<K, I,
      V>(ident: K -> I, hash: I -> nat, bs: seq<seq<Entry<K, V>>>, bits: nat, i: I)
    requires bits <= 64 && InPlace(ident, hash, bs, bits)
    ensures var h := HashBits(hash(i), bits);
            Matching(ident, Concat(bs), i) == if h < |bs| then Matching(ident, bs[h], i) else []
  {
    hide HashBits, Pow2;
    var h := HashBits(hash(i), bits);
    if bs != [] {
      var n := |bs| - 1;
      assert forall b :: 0 <= b < n ==> bs[..n][b] == bs[b];
      MatchingConcat(ident, hash, bs[..n], bits, i);
      MatchingAppend(ident, Concat(bs[..n]), bs[n], i);
      if n != h {
        forall e | e in bs[n] ensures ident(e.key) != i {
          assert BucketOf(ident, hash, e, bits) == n;
        }
        NoMatch(ident, bs[n], i);
      }
    }
  }

  lemma {:induction false} NoMatch<K, I, V>(ident: K -> I, s: seq<Entry<K, V>>, i: I)
    requires forall e :: e in s ==> ident(e.key) != i
    ensures Matching(ident, s, i) == []
  {
    if s != [] {
      NoMatch(ident, s[1..], i);
    }
  }

  /** The header promises that a find after APPEND returns the last inserted entry, the
      first of its chain. Growth turns the chain of every key around: after it the oldest
      entry comes first. */
  lemma GrowthReversesKey<K, I,
      V>(ident: K -> I, hash: I -> nat, bs: seq<seq<Entry<K, V>>>, bits: nat, bits': nat, i: I)
    requires bits <= 64 && bits' <= 64 && |bs| == Pow2(bits) && InPlace(ident, hash, bs, bits)
    ensures Matching(ident, Spread(ident, hash, Concat(bs), bits')[HashBits(hash(i), bits')], i)
         == Reverse(Matching(ident, bs[HashBits(hash(i), bits)], i))
  {
    hide HashBits, Pow2;
    var h' := HashBits(hash(i), bits');
    SpreadReverses(ident, hash, Concat(bs), bits', h');
    MatchingReverse(ident, InBucket(ident, hash, Concat(bs), bits', h'), i);
    MatchingInBucket(ident, hash, Concat(bs), bits', i);
    MatchingConcat(ident, hash, bs, bits, i);
  }

  /** A second growth turns it back. */
  lemma GrowthTwiceRestores<K, I,
      V>(ident: K -> I, hash: I -> nat, bs: seq<seq<Entry<K, V>>>, bits: nat, bits': nat, bits'': nat, i: I)
    requires bits <= 64 && bits' <= 64 && bits'' <= 64 && |bs| == Pow2(bits) && InPlace(ident, hash, bs, bits)
    ensures var bs' := Spread(ident, hash, Concat(bs), bits');
      Matching(ident, Spread(ident, hash, Concat(bs'), bits'')[HashBits(hash(i), bits'')], i)
        == Matching(ident, bs[HashBits(hash(i), bits)], i)
  {
    hide HashBits, Pow2, Matching, Concat, Spread;
    var bs' := Spread(ident, hash, Concat(bs), bits');
    SpreadPlacement(ident, hash, Concat(bs), bits');
    GrowthReversesKey(ident, hash, bs, bits, bits', i);
    GrowthReversesKey(ident, hash, bs', bits', bits'', i);
    ReverseTwice(Matching(ident, bs[HashBits(hash(i), bits)], i));
  }

  // ---------------------------------------------------------------- the map view

  /** The contents are a finite map: one entry for every key of `m`, and no other. */
  ghost predicate Represents<K, I, V>(ident: K -> I, es: multiset<Entry<K, V>>, m: map<I, Entry<K, V>>) {
    && (forall e :: e in es ==> es[e] == 1 && ident(e.key) in m && m[ident(e.key)] == e)
    && (forall i :: i in m ==> m[i] in es && ident(m[i].key) == i)
  }

  ghost predicate HasKey<K, I, V>(ident: K -> I, es: multiset<Entry<K, V>>, i: I) {
    exists e :: e in es && ident(e.key) == i
  }

  /** What one `hashmap__insert` may do to the contents, whatever they are. */
  ghost predicate InsertStep<K, I, V>(ident: K -> I, es: multiset<Entry<K, V>>, e: Entry<K, V>, strategy: Strategy,
                                      err: int, found: Option<Entry<K, V>>, es': multiset<Entry<K, V>>)
  {
    && (found.Some? <==> strategy != APPEND && HasKey(ident, es, ident(e.key)))
    && (found.Some? ==> found.value in es && ident(found.value.key) == ident(e.key))
    && (found.Some? && strategy == ADD ==> err == -EEXIST && es' == es)
    && (found.Some? && strategy != ADD ==> err == 0 && es' == es - multiset{found.value} + multiset{e})
    && (found.None? && strategy == UPDATE ==> err == -ENOENT && es' == es)
    && (found.None? && strategy != UPDATE && err == 0 ==> es' == es + multiset{e})
    && (found.None? && strategy != UPDATE && err != 0 ==> err == -ENOMEM && es' == es)
  }

  lemma AddRepresents<K, I, V>(ident: K -> I, es: multiset<Entry<K, V>>, m: map<I, Entry<K, V>>, e: Entry<K, V>)
    requires Represents(ident, es, m) && ident(e.key) !in m
    ensures Represents(ident, es + multiset{e}, m[ident(e.key) := e])
  {
    assert e !in es;
    var es', m' := es + multiset{e}, m[ident(e.key) := e];
    forall i | i in m' ensures m'[i] in es' && ident(m'[i].key) == i {
      if i != ident(e.key) {
        assert m[i] in es;
      }
    }
  }

  lemma RemoveRepresents<K, I, V>(ident: K -> I, es: multiset<Entry<K, V>>, m: map<I, Entry<K, V>>, x: Entry<K, V>)
    requires Represents(ident, es, m) && x in es
    ensures Represents(ident, es - multiset{x}, m - {ident(x.key)})
  {
    var es', m' := es - multiset{x}, m - {ident(x.key)};
    forall e | e in es' ensures es'[e] == 1 && ident(e.key) in m' && m'[ident(e.key)] == e {
      assert e in es && e != x;
    }
    forall i | i in m' ensures m'[i] in es' && ident(m'[i].key) == i {
      assert m[i] in es && m[i] != x;
    }
  }

  /** ADD, SET and UPDATE refine the operations of a finite map: the error tells whether
      the key was there, and the new contents are the updated map. */
  lemma InsertRefinesMap<K, I, V>(ident: K -> I, es: multiset<Entry<K, V>>, m: map<I, Entry<K, V>>, e: Entry<K, V>,
                                  strategy: Strategy, err: int, found: Option<Entry<K, V>>, es': multiset<Entry<K, V>>)
    requires Represents(ident, es, m) && strategy != APPEND
    requires InsertStep(ident, es, e, strategy, err, found, es')
    ensures found == if ident(e.key) in m then Some(m[ident(e.key)]) else None
    requires err != -ENOMEM
    ensures err == (if strategy == ADD && ident(e.key) in m then -EEXIST
                    else if strategy == UPDATE && ident(e.key) !in m then -ENOENT else 0)
    ensures Represents(ident, es', if err == 0 then m[ident(e.key) := e] else m)
  {
    var i := ident(e.key);
    if i in m {
      assert m[i] in es;
      if strategy != ADD {
        var x := found.value;
        RemoveRepresents(ident, es, m, x);
        AddRepresents(ident, es - multiset{x}, m - {i}, e);
        assert (m - {i})[i := e] == m[i := e];
      }
    } else if strategy != UPDATE {
      AddRepresents(ident, es, m, e);
    }
  }

  // ---------------------------------------------------------------- the table

  /** `equal_fn` is any equivalence: two keys are equal when `ident` maps them to the same
      identity. `hash_fn` must agree with it, so it is a function of the identity. */
  class HashMap<K, I(==), V> {
    const ident: K -> I
    const hash: I -> nat
    var buckets: seq<seq<Entry<K, V>>>
    var cap: nat
    var capBits: nat
    var sz: nat

    ghost predicate Valid()
      reads this
    {
      && capBits <= MAX_CAP_BITS
      && |buckets| == cap
      && (cap == 0 ==> capBits == 0 && sz == 0)
      && (cap != 0 ==> capBits >= MIN_CAP_BITS && cap == Pow2(capBits))
      && InPlace(ident, hash, buckets, capBits)
      && |Entries()| == sz
      && sz * 4 / 3 <= cap
    }

    ghost function Entries(): multiset<Entry<K, V>>
      reads this
    {
      Contents(buckets)
    }

    /** `hashmap__init` / `hashmap__new` */
    constructor (ident: K -> I, hash: I -> nat)
      ensures Valid() && Entries() == multiset{}
      ensures this.ident == ident && this.hash == hash
    {
      this.ident, this.hash := ident, hash;
      buckets, cap, capBits, sz := [], 0, 0, 0;
    }

    /** `hashmap_needs_to_grow` */
    predicate NeedsToGrow()
      reads this
    {
      cap == 0 || (sz + 1) * 4 / 3 > cap
    }

    /** `hashmap_grow`: contents are kept, and every chain ends up in reverse order. */
    method Grow()
      requires Valid() && NeedsToGrow() && capBits < MAX_CAP_BITS
      modifies this
      ensures Valid() && !NeedsToGrow() && Entries() == old(Entries()) && sz == old(sz)
      ensures capBits == if old(cap) == 0 then MIN_CAP_BITS else old(capBits) + 1
      ensures buckets == Spread(ident, hash, Concat(old(buckets)), capBits)
    {
      hide HashBits, Pow2, Contents, Spread;
      var newCapBits := capBits + 1;
      if newCapBits < MIN_CAP_BITS { newCapBits := MIN_CAP_BITS; }
      var newCap := Pow2(newCapBits);
      var newBuckets: seq<seq<Entry<K, V>>> := seq(newCap, _ => []);
      SpreadNothing(ident, hash, newCapBits, newBuckets);
      for b := 0 to cap
        invariant newBuckets == Spread(ident, hash, Concat(buckets[..b]), newCapBits)
        modifies {}
      {
        ghost var before := Concat(buckets[..b]);
        assert buckets[..b + 1][..b] == buckets[..b];
        newBuckets := PushChain(newBuckets, buckets[b], before, newCapBits);
      }
      assert buckets[..cap] == buckets;
      Regrown(Concat(buckets), newCapBits);
      cap, capBits, buckets := newCap, newCapBits, newBuckets;
    }

    /** The inner loop of growth: each entry of one old chain goes to the front of its new chain. */
    method PushChain(bs: seq<seq<Entry<K, V>>>, chain: seq<Entry<K, V>>, ghost before: seq<Entry<K, V>>, bits: nat)
      returns (newBuckets: seq<seq<Entry<K, V>>>)
      requires bits <= 64 && bs == Spread(ident, hash, before, bits)
      ensures newBuckets == Spread(ident, hash, before + chain, bits)
    {
      hide HashBits, Pow2, Spread;
      newBuckets := bs;
      assert before + chain[..0] == before;
      for k := 0 to |chain|
        invariant newBuckets == Spread(ident, hash, before + chain[..k], bits)
      {
        var h := HashBits(hash(ident(chain[k].key)), bits);
        SpreadAppend(ident, hash, before + chain[..k], chain[k], bits);
        newBuckets := newBuckets[h := [chain[k]] + newBuckets[h]];
        assert before + chain[..k + 1] == before + chain[..k] + [chain[k]];
      }
      assert chain[..|chain|] == chain;
    }

    /** What growth establishes: the same contents, in place, with room for one more. */
    lemma Regrown(es: seq<Entry<K, V>>, bits: nat)
      requires Valid() && NeedsToGrow() && capBits < MAX_CAP_BITS && es == Concat(buckets)
      requires bits == if cap == 0 then MIN_CAP_BITS else capBits + 1
      ensures bits <= MAX_CAP_BITS && Contents(Spread(ident, hash, es, bits)) == Entries()
      ensures InPlace(ident, hash, Spread(ident, hash, es, bits), bits)
      ensures (sz + 1) * 4 / 3 <= Pow2(bits)
    {
      hide HashBits, Spread;
      SpreadContents(ident, hash, es, bits);
      SpreadPlacement(ident, hash, es, bits);
      Pow2Constants();
    }

    /** `hashmap_find_entry`: the position of the first entry of the chain with an equal key. */
    method FindEntry(i: I, h: nat) returns (pos: Option<nat>)
      requires Valid() && h == HashBits(hash(i), capBits)
      ensures pos.None? <==> !HasKey(ident, Entries(), i)
      ensures pos.Some? ==> h < |buckets| && pos.value < |buckets[h]| && ident(buckets[h][pos.value].key) == i
      ensures pos.Some? ==>
          Matching(ident, buckets[h], i) != []
          && buckets[h][pos.value] == Matching(ident, buckets[h], i)[0]
      ensures pos.Some? ==> buckets[h][pos.value] in Entries()
    {
      hide HashBits, Pow2;
      if cap == 0 {
        return None;
      }
      var chain := buckets[h];
      var cur := 0;
      while cur < |chain|
        invariant cur <= |chain|
        invariant forall k :: 0 <= k < cur ==> ident(chain[k].key) != i
        invariant Matching(ident, chain, i) == Matching(ident, chain[cur..], i)
      {
        if ident(chain[cur].key) == i {
          ConcatMember(buckets, chain[cur]);
          return Some(cur);
        }
        cur := cur + 1;
      }
      forall e | e in Entries() ensures ident(e.key) != i {
        ConcatMember(buckets, e);
        var b :| 0 <= b < |buckets| && e in buckets[b];
        assert BucketOf(ident, hash, e, capBits) == b;
        assert b == h ==> exists k :: 0 <= k < |chain| && chain[k] == e;
      }
      return None;
    }

    /** `hashmap__insert`. `found` is the entry reported through old_key and old_value. */
    method Insert(key: K, value: V, strategy: Strategy) returns (err: int, found: Option<Entry<K, V>>)
      requires Valid()
      modifies this
      ensures Valid()
      ensures err == -ENOMEM ==> sz >= 0x0800_0000_0000_0000
      ensures InsertStep(ident, old(Entries()), Entry(key, value), strategy, err, found, Entries())
      ensures err != 0 ==> buckets == old(buckets)
    {
      hide HashBits, Pow2, Contents, Shuffle, UpperBits;
      found := None;
      var h := HashBits(hash(ident(key)), capBits);
      if strategy != APPEND {
        var pos := FindEntry(ident(key), h);
        if pos.Some? {
          found := Some(buckets[h][pos.value]);
          if strategy == SET || strategy == UPDATE {
            ReplaceInBucket(h, pos.value, Entry(key, value));
            return 0, found;
          } else {
            return -EEXIST, found;
          }
        }
      }
      if strategy == UPDATE {
        return -ENOENT, None;
      }
      if NeedsToGrow() {
        if capBits >= MAX_CAP_BITS {
          Pow2Constants();
          return -ENOMEM, None;
        }
        Grow();
        h := HashBits(hash(ident(key)), capBits);
      }
      AddEntry(h, Entry(key, value));
      err := 0;
    }

    /** `hashmap_add_entry` on the bucket of the key, and the size that goes with it. */
    method AddEntry(h: nat, e: Entry<K, V>)
      requires Valid() && !NeedsToGrow() && h == BucketOf(ident, hash, e, capBits)
      modifies this`buckets, this`sz
      ensures Valid() && h < |buckets| && buckets == old(buckets)[h := [e] + old(buckets)[h]]
      ensures Entries() == old(Entries()) + multiset{e}
    {
      hide HashBits, Pow2;
      var c := [e] + buckets[h];
      ConcatUpdate(buckets, h, c);
      InPlaceUpdate(ident, hash, buckets, capBits, h, c);
      assert multiset(c) == multiset{e} + multiset(buckets[h]);
      buckets := buckets[h := c];
      sz := sz + 1;
      Cancel(Entries(), multiset(old(buckets)[h]), old(Entries()) + multiset{e});
    }

    /** The assignment to `entry->key` and `entry->value` of an existing entry. */
    method ReplaceInBucket(h: nat, pos: nat, e: Entry<K, V>)
      requires Valid() && h < |buckets| && pos < |buckets[h]| && ident(buckets[h][pos].key) == ident(e.key)
      modifies this`buckets
      ensures Valid() && buckets == old(buckets)[h := old(buckets)[h][pos := e]]
      ensures Entries() == old(Entries()) - multiset{old(buckets)[h][pos]} + multiset{e}
    {
      hide HashBits, Pow2, Concat;
      var x, chain := buckets[h][pos], buckets[h];
      var c := chain[pos := e];
      ConcatMember(buckets, x);
      ConcatUpdate(buckets, h, c);
      assert BucketOf(ident, hash, x, capBits) == h;
      InPlaceUpdate(ident, hash, buckets, capBits, h, c);
      assert multiset(c) == multiset(chain) - multiset{x} + multiset{e};
      buckets := buckets[h := c];
      Cancel(Entries(), multiset(chain), old(Entries()) - multiset{x} + multiset{e});
    }

    /** `hashmap__find` */
    method Find(key: K) returns (r: Option<V>)
      requires Valid()
      ensures r.Some? <==> HasKey(ident, Entries(), ident(key))
      ensures r.Some? ==> exists e :: e in Entries() && ident(e.key) == ident(key) && r.value == e.value
      ensures forall m: map<I, Entry<K, V>> :: Represents(ident, Entries(), m) ==>
          r == if ident(key) in m then Some(m[ident(key)].value) else None
    {
      hide HashBits, Pow2;
      var h := HashBits(hash(ident(key)), capBits);
      var pos := FindEntry(ident(key), h);
      if pos.None? {
        return None;
      }
      r := Some(buckets[h][pos.value].value);
    }

    /** `hashmap__delete` */
    method Delete(key: K) returns (found: Option<Entry<K, V>>)
      requires Valid()
      modifies this
      ensures Valid()
      ensures found.Some? <==> HasKey(ident, old(Entries()), ident(key))
      ensures found.None? ==> buckets == old(buckets) && Entries() == old(Entries())
      ensures found.Some? ==> found.value in old(Entries()) && ident(found.value.key) == ident(key)
      ensures found.Some? ==> Entries() == old(Entries()) - multiset{found.value}
    {
      hide HashBits, Pow2;
      var h := HashBits(hash(ident(key)), capBits);
      var pos := FindEntry(ident(key), h);
      if pos.None? {
        return None;
      }
      found := Some(buckets[h][pos.value]);
      DeleteFromBucket(h, pos.value);
    }

    /** `hashmap_del_entry`, and the size that goes with it. */
    method DeleteFromBucket(h: nat, p: nat)
      requires Valid() && h < |buckets| && p < |buckets[h]|
      modifies this`buckets, this`sz
      ensures Valid() && buckets == old(buckets)[h := old(buckets)[h][..p] + old(buckets)[h][p + 1..]]
      ensures Entries() + multiset{old(buckets)[h][p]} == old(Entries())
    {
      hide HashBits, Pow2, Concat;
      var chain := buckets[h];
      var c := chain[..p] + chain[p + 1..];
      ConcatUpdate(buckets, h, c);
      assert chain == chain[..p] + [chain[p]] + chain[p + 1..];
      assert multiset(chain) == multiset(c) + multiset{chain[p]};
      forall e | e in c ensures BucketOf(ident, hash, e, capBits) == h {
        assert e in chain;
      }
      InPlaceUpdate(ident, hash, buckets, capBits, h, c);
      ConcatMember(buckets, chain[p]);
      buckets := buckets[h := c];
      Cancel(Entries() + multiset{chain[p]}, multiset(c), old(Entries()));
      sz := sz - 1;
    }

    /** `hashmap__for_each_key_entry`: exactly the values stored under the key, with multiplicity. */
    method KeyEntries(key: K) returns (es: seq<Entry<K, V>>)
      requires Valid()
      ensures forall e :: multiset(es)[e] == if ident(e.key) == ident(key) then Entries()[e] else 0
    {
      hide HashBits, Pow2;
      es := [];
      var h := HashBits(hash(ident(key)), capBits);
      if cap == 0 {
        return;
      }
      var chain := buckets[h];
      for cur := 0 to |chain|
        invariant es + Matching(ident, chain[cur..], ident(key)) == Matching(ident, chain, ident(key))
      {
        if ident(chain[cur].key) == ident(key) {
          es := es + [chain[cur]];
        }
      }
      forall e ensures multiset(es)[e] == if ident(e.key) == ident(key) then Entries()[e] else 0 {
        MatchingCount(ident, chain, ident(key), e);
        if ident(e.key) == ident(key) {
          assert BucketOf(ident, hash, e, capBits) == h;
          ConcatCount(buckets, h, e);
        }
      }
    }
  }
}
