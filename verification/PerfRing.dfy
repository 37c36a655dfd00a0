/** Reading the records of a perf ring buffer (bpf_perf_event_read_simple in libbpf.c).

    The kernel appends records to an endless stream of bytes, of which the ring holds the
    last stretch; a record may wrap around the end of the ring. The head and tail counters
    are 64-bit words that wrap. */
module PerfRing {
  import opened Basics
  import opened Words

  type U64 = x: nat | x < TWO_64

  /** `enum bpf_perf_event_ret` */
  datatype Ret = Done | Error | Cont

  /** `struct perf_event_header` is eight bytes long and ends with the 16-bit record size. */
  const HEADER_SIZE: nat := 8

  function SizeAt(mem: seq<Octet>, off: nat): nat
    requires off + HEADER_SIZE <= |mem|
  {
    var (lo: nat, hi: nat) := (mem[off + 6], mem[off + 7]);
    lo + 0x100 * hi
  }

  /** A record as the kernel writes it: its own size is in its header, and sizes are multiples
      of eight, so that no header wraps. */
  ghost predicate IsRecord(r: seq<Octet>) {
    |r| >= HEADER_SIZE && |r| % 8 == 0 && SizeAt(r, 0) == |r|
  }

  ghost predicate AllRecords(rs: seq<seq<Octet>>) {
    forall k :: 0 <= k < |rs| ==> IsRecord(rs[k])
  }

  /** The stream that a list of records makes up. */
  ghost function Join(rs: seq<seq<Octet>>): seq<Octet> {
    if rs == [] then [] else Join(rs[..|rs| - 1]) + rs[|rs| - 1]
  }

  /** The ring holds stretch `s` of the stream, which begins at position `p`. */
  ghost predicate Holds(ring: seq<Octet>, p: nat, s: seq<Octet>) {
    && |s| <= |ring|
    && forall i :: 0 <= i < |s| ==> ring[(p + i) % |ring|] == s[i]
  }

  ghost predicate RingSize(size: nat) {
    exists n: nat :: 3 <= n <= 63 && size == Pow2(n)
  }

  lemma RingSizeFacts(size: nat, p: nat)
    requires RingSize(size)
    ensures 8 <= size < TWO_64 && size % 8 == 0
    ensures And(p % TWO_64, size - 1) == p % size
  {
    var n: nat :| 3 <= n <= 63 && size == Pow2(n);
    Pow2Constants();
    Pow2Adds(3, n - 3);
    Pow2Adds(n, 64 - n);
    Pow2Adds(n, 63 - n);
    assert Pow2(3) == 8 && Pow2(64) == 2 * Pow2(63);
    MaskIsMod(p % TWO_64, n);
    hide Pow2, And;
    AtLeastOnce(Pow2(n - 3), 8);
    Commute(8, Pow2(n - 3));
    EightDivides(size, Pow2(n - 3));
    AtLeastOnce(Pow2(63 - n), size);
    Commute(size, Pow2(63 - n));
    Commute(size, Pow2(64 - n));
    ModMod(p, size, Pow2(64 - n), TWO_64);
  }

  lemma EightDivides(x: nat, k: nat)
    requires x == 8 * k
    ensures x % 8 == 0
  {
  }

  /** A position a little further on, in the ring. */
  lemma RingStep(p: nat, i: nat, size: nat)
    requires size > 0 && i <= size
    ensures (p + i) % size == if p % size + i < size then p % size + i else p % size + i - size
  {
    var q, r := p / size, p % size;
    Divided(p, size);
    if r + i < size {
      QuotientUnique(p + i, size, q, r + i);
    } else {
      Distribute(q, 1, size);
      QuotientUnique(p + i, size, q + 1, r + i - size);
    }
  }

  lemma {:induction false} JoinSplits(rs: seq<seq<Octet>>, k: nat)
    requires k < |rs|
    ensures |Join(rs[..k])| + |rs[k]| <= |Join(rs)|
    ensures Join(rs)[|Join(rs[..k])|..][..|rs[k]|] == rs[k]
    ensures Join(rs[..k + 1]) == Join(rs[..k]) + rs[k]
  {
    assert rs[..k + 1][..k] == rs[..k];
    if k < |rs| - 1 {
      var front := rs[..|rs| - 1];
      JoinSplits(front, k);
      assert front[..k] == rs[..k];
      var a, n := |Join(rs[..k])|, |rs[k]|;
      assert Join(rs)[a..][..n] == Join(front)[a..][..n];
    } else {
      assert rs[..|rs| - 1] == rs[..k];
    }
  }

  lemma {:induction false} JoinAligned(rs: seq<seq<Octet>>)
    requires AllRecords(rs)
    ensures |Join(rs)| % 8 == 0
  {
    if rs != [] {
      JoinAligned(rs[..|rs| - 1]);
      assert IsRecord(rs[|rs| - 1]);
    }
  }

  /** What the ring holds from the current position on, up to its end and then from its
      beginning, is the next record. */
  lemma RecordInRing(ring: seq<Octet>, p: nat, s: seq<Octet>, a: nat, r: seq<Octet>)
    requires Holds(ring, p, s) && |ring| > 0 && a + |r| <= |s| && s[a..][..|r|] == r
    ensures var off := (p + a) % |ring|;
      if off + |r| <= |ring| then ring[off..off + |r|] == r
      else off <= |ring| && |r| >= |ring| - off && ring[off..] + ring[..|r| - (|ring| - off)] == r
  {
    var size, off := |ring|, (p + a) % |ring|;
    forall i | 0 <= i < |r| ensures r[i] == ring[if off + i < size then off + i else off + i - size] {
      RingStep(p + a, i, size);
      assert s[a..][..|r|][i] == s[a + i];
      assert ring[(p + (a + i)) % size] == s[a + i];
      assert p + (a + i) == p + a + i;
    }
  }

  /** `struct perf_event_mmap_page` and the data behind it, and the copy buffer of the caller. */
  class Reader {
    var dataHead: U64
    var dataTail: U64
    const base: array<Octet>
    var copyMem: array<Octet>

    constructor (base: array<Octet>, copyMem: array<Octet>)
      ensures this.base == base && this.copyMem == copyMem && dataHead == dataTail == 0
    {
      this.base, this.copyMem, dataHead, dataTail := base, copyMem, 0, 0;
    }

    /** The records between tail and head, which begin at position `p` of the stream. */
    ghost predicate Pending(p: nat, rs: seq<seq<Octet>>)
      reads this, base
    {
      && RingSize(base.Length) && AllRecords(rs) && p % 8 == 0
      && Holds(base[..], p, Join(rs))
      && dataTail == p % TWO_64 && dataHead == (p + |Join(rs)|) % TWO_64
    }

    /** `bpf_perf_event_read_simple`. The callback's verdict on its k-th record is `fn(k)`: it
        is passed the records in order, byte for byte, until it asks to stop, and the tail is
        left just behind the last record passed. */
    method ReadSimple(fn: nat -> Ret, ghost p: nat, ghost rs: seq<seq<Octet>>)
        returns (ret: Ret, passed: seq<seq<Octet>>)
      requires Pending(p, rs) && copyMem != base
      modifies this`dataTail, this`copyMem, copyMem
      ensures |passed| <= |rs| && passed == rs[..|passed|] && base[..] == old(base[..])
      ensures forall k :: 0 <= k < |passed| - 1 ==> fn(k) == Cont
      ensures ret == if passed == [] then Cont else fn(|passed| - 1)
      ensures ret == Cont ==> |passed| == |rs|
      ensures dataTail == (p + |Join(passed)|) % TWO_64 && dataHead == old(dataHead)
    {
      hide RingSize, IsRecord, Holds, Join;
      var head, tail := dataHead, dataTail;
      ret, passed := Cont, [];
      NothingJoined(rs);
      while head != tail
        invariant |passed| <= |rs| && passed == rs[..|passed|]
        invariant tail == (p + |Join(passed)|) % TWO_64
        invariant forall k :: 0 <= k < |passed| ==> fn(k) == Cont
        invariant copyMem != base && (copyMem == old(copyMem) || fresh(copyMem)) && base[..] == old(base[..])
            && ret == Cont
        decreases |rs| - |passed|
      {
        ghost var k := |passed|;
        BehindHead(rs, k);
        var ehdr := ReadRecord(tail, p, rs, k);
        ret := fn(|passed|);
        Passing(p, rs, k);
        passed := passed + [ehdr];
        tail := (tail + |ehdr|) % TWO_64;
        if ret != Cont {
          break;
        }
      }
      if ret == Cont { AtHead(base[..], p, rs, |passed|); }
      dataTail := tail;
    }

    /** The two `memcpy` calls for a record that wraps. */
    method CopyWrapped(off: nat, ehdrSize: nat)
      requires copyMem != base && off <= base.Length < off + ehdrSize && off + ehdrSize - base.Length <= base.Length
      modifies this`copyMem, copyMem
      ensures copyMem != base && (copyMem == old(copyMem) || fresh(copyMem)) && base[..] == old(base[..])
      ensures ehdrSize <= copyMem.Length
          && copyMem[..ehdrSize] == base[..][off..] + base[..][..off + ehdrSize - base.Length]
    {
      var lenFirst := base.Length - off;
      var lenSecnd := ehdrSize - lenFirst;
      if copyMem.Length < ehdrSize {
        copyMem := new Octet[ehdrSize](_ => 0);
      }
      forall i | 0 <= i < lenFirst {
        copyMem[i] := base[off + i];
      }
      forall i | 0 <= i < lenSecnd {
        copyMem[lenFirst + i] := base[i];
      }
      forall i | 0 <= i < ehdrSize
        ensures copyMem[i] == (base[..][off..] + base[..][..lenSecnd])[i]
      {
        assert i >= lenFirst ==> copyMem[lenFirst + (i - lenFirst)] == base[i - lenFirst];
      }
      assert copyMem[..ehdrSize] == base[..][off..] + base[..][..lenSecnd];
    }

    /** The record at the tail, in place or put together in the copy buffer. */
    method ReadRecord(tail: U64, ghost p: nat, ghost rs: seq<seq<Octet>>, ghost k: nat) returns (ehdr: seq<Octet>)
      requires RingSize(base.Length) && AllRecords(rs) && p % 8 == 0 && Holds(base[..], p, Join(rs)) && copyMem != base
      requires k < |rs| && tail == (p + |Join(rs[..k])|) % TWO_64
      modifies this`copyMem, copyMem
      ensures ehdr == rs[k] && copyMem != base && (copyMem == old(copyMem) || fresh(copyMem))
          && base[..] == old(base[..])
    {
      hide RingSize, IsRecord, Holds, Join, SizeAt, And;
      var mmapSize := base.Length;
      RecordAt(base[..], p, rs, k);
      var off := And(tail, mmapSize - 1);
      var ehdrSize := SizeAt(base[..], off);
      if off + ehdrSize > mmapSize {
        CopyWrapped(off, ehdrSize);
        ehdr := copyMem[..ehdrSize];
      } else {
        ehdr := base[off..off + ehdrSize];
        assert ehdr == base[..][off..off + ehdrSize];
      }
    }
  }

  lemma NothingJoined(rs: seq<seq<Octet>>)
    ensures |Join([])| == 0 && rs[..0] == []
  {
  }

  /** The record at the tail: its header is in one piece and gives its size. */
  lemma RecordAt(ring: seq<Octet>, p: nat, rs: seq<seq<Octet>>, k: nat)
    requires RingSize(|ring|) && AllRecords(rs) && p % 8 == 0 && Holds(ring, p, Join(rs)) && k < |rs|
    ensures var off := And((p + |Join(rs[..k])|) % TWO_64, |ring| - 1);
      && off + HEADER_SIZE <= |ring| && SizeAt(ring, off) == |rs[k]|
      && if off + |rs[k]| <= |ring| then ring[off..off + |rs[k]|] == rs[k]
         else |rs[k]| - (|ring| - off) <= |ring| && ring[off..] + ring[..|rs[k]| - (|ring| - off)] == rs[k]
  {
    hide Join, RingSize, And, Holds, SizeAt, IsRecord;
    RecordOffset(ring, p, rs, k);
    var a := |Join(rs[..k])|;
    JoinSplits(rs, k);
    RecordInRing(ring, p, Join(rs), a, rs[k]);
    HoldsBound(ring, p, Join(rs));
    HeaderInPlace(ring, (p + a) % |ring|, rs[k]);
  }

  lemma RecordOffset(ring: seq<Octet>, p: nat, rs: seq<seq<Octet>>, k: nat)
    requires RingSize(|ring|) && AllRecords(rs) && p % 8 == 0 && k < |rs|
    ensures var x := p + |Join(rs[..k])|;
      |ring| > 0 && And(x % TWO_64, |ring| - 1) == x % |ring| && x % |ring| + HEADER_SIZE <= |ring| && IsRecord(rs[k])
  {
    hide Join, RingSize, And, IsRecord;
    JoinAligned(rs[..k]);
    SumAligned(p, |Join(rs[..k])|);
    OffsetFacts(p + |Join(rs[..k])|, |ring|);
  }

  lemma SumAligned(x: nat, y: nat)
    requires x % 8 == 0 && y % 8 == 0
    ensures (x + y) % 8 == 0
  {
  }

  lemma OffsetFacts(x: nat, size: nat)
    requires RingSize(size) && x % 8 == 0
    ensures size > 0 && And(x % TWO_64, size - 1) == x % size && x % size + HEADER_SIZE <= size
  {
    hide RingSize, And;
    RingSizeFacts(size, x);
    AlignedOffset(x, size);
  }

  lemma HoldsBound(ring: seq<Octet>, p: nat, s: seq<Octet>)
    requires Holds(ring, p, s)
    ensures |s| <= |ring|
  {
  }

  lemma AlignedOffset(x: nat, size: nat)
    requires size > 0 && x % 8 == 0 && size % 8 == 0
    ensures x % size % 8 == 0 && x % size + 8 <= size
  {
    ModMod(x, 8, size / 8, size);
    Divided(x, size);
    RoomForHeader(x % size, size);
  }

  lemma RoomForHeader(off: nat, size: nat)
    requires off < size && off % 8 == 0 && size % 8 == 0
    ensures off + 8 <= size
  {
  }

  lemma HeaderInPlace(ring: seq<Octet>, off: nat, r: seq<Octet>)
    requires off + HEADER_SIZE <= |ring| && IsRecord(r)
    requires if off + |r| <= |ring| then ring[off..off + |r|] == r
             else |r| - (|ring| - off) <= |ring| && ring[off..] + ring[..|r| - (|ring| - off)] == r
    ensures SizeAt(ring, off) == |r|
  {
    if off + |r| <= |ring| {
      assert r[6] == ring[off + 6] && r[7] == ring[off + 7];
    } else {
      var whole := ring[off..] + ring[..|r| - (|ring| - off)];
      assert whole[6] == ring[off..][6] && whole[7] == ring[off..][7];
    }
  }

  /** Not all records are passed while the tail is not at the head. */
  lemma BehindHead(rs: seq<seq<Octet>>, k: nat)
    requires k <= |rs|
    ensures k == |rs| ==> |Join(rs[..k])| == |Join(rs)|
  {
    assert k == |rs| ==> rs[..k] == rs;
  }

  lemma Passing(p: nat, rs: seq<seq<Octet>>, k: nat)
    requires k < |rs|
    ensures rs[..k + 1] == rs[..k] + [rs[k]]
    ensures (p + |Join(rs[..k + 1])|) % TWO_64 == ((p + |Join(rs[..k])|) % TWO_64 + |rs[k]|) % TWO_64
  {
    hide Join;
    JoinSplits(rs, k);
  }

  lemma AtHead(ring: seq<Octet>, p: nat, rs: seq<seq<Octet>>, k: nat)
    requires RingSize(|ring|) && AllRecords(rs) && Holds(ring, p, Join(rs)) && k <= |rs|
    requires (p + |Join(rs[..k])|) % TWO_64 == (p + |Join(rs)|) % TWO_64
    ensures k == |rs|
  {
    hide Join, RingSize, Holds;
    if k < |rs| {
      JoinSplits(rs, k);
      assert IsRecord(rs[k]);
      RingSizeFacts(|ring|, 0);
      HoldsBound(ring, p, Join(rs));
      CloseWords(p + |Join(rs[..k])|, p + |Join(rs)|);
    }
  }

  lemma CloseWords(x: nat, y: nat)
    requires x < y < x + TWO_64
    ensures x % TWO_64 != y % TWO_64
  {
  }
}
