/** JIT line information (bpf_prog_linfo.c): one list of records for all functions of a
    program is cut at the addresses where functions begin, and addresses are looked up in the
    block of their function. */
module ProgLinfos {
  import opened Basics
  import opened Words

  const EINVAL: int := 22

  type U64 = x: nat | x < TWO_64

  /** `last - first + 1` in 64 bits. */
  function Extent(first: U64, last: U64): U64 { (last - first + 1) % TWO_64 }

  /** The records of block `f` but its first: the next function does not begin there yet, and
      addresses increase. */
  ghost predicate BlockBody(jited: seq<U64>, next: U64, from: nat, to: nat) {
    from <= to <= |jited| && forall j :: from < j < to ==> jited[j] != next && jited[j] > jited[j - 1]
  }

  /** Function `f - 1` has the records from `from` up to `to`, where function `f` begins. */
  ghost predicate CutAt(jited: seq<U64>, ksymFunc: seq<U64>, ksymLen: seq<U32>, f: nat, from: nat, to: nat) {
    && 1 <= f < |ksymFunc| == |ksymLen| && from < to < |jited|
    && BlockBody(jited, ksymFunc[f], from, to)
    && Extent(ksymFunc[f - 1], jited[to - 1]) <= ksymLen[f - 1]
  }

  /** `c` gives the first record of every function. Every block but the last has increasing
      addresses, which stay within the length of its function, and ends where the address of
      the next function first occurs. */
  ghost predicate IsCut(jited: seq<U64>, ksymFunc: seq<U64>, ksymLen: seq<U32>, c: seq<nat>)
    requires |ksymFunc| == |ksymLen|
  {
    && |c| == |ksymFunc| > 0 && c[0] == 0
    && (forall f :: 0 <= f < |c| ==> c[f] < |jited| && jited[c[f]] == ksymFunc[f])
    && forall f :: 1 <= f < |c| ==> CutAt(jited, ksymFunc, ksymLen, f, c[f - 1], c[f])
  }

  /** The end of block `f`. */
  function BlockEnd(jited: seq<U64>, c: seq<nat>, f: nat): nat
    requires f < |c|
  {
    if f + 1 < |c| then c[f + 1] else |jited|
  }

  lemma {:induction false} CutIncreasing(jited: seq<U64>, ksymFunc: seq<U64>, ksymLen: seq<U32>, c: seq<nat>, f: nat,
      g: nat)
    requires |ksymFunc| == |ksymLen| && IsCut(jited, ksymFunc, ksymLen, c) && f <= g < |c|
    ensures c[f] <= c[g] && c[f] + (g - f) <= c[g]
  {
    if f < g {
      CutIncreasing(jited, ksymFunc, ksymLen, c, f, g - 1);
    }
  }

  /** The blocks cut all records: every record lies in exactly one of them. */
  lemma CutCovers(jited: seq<U64>, ksymFunc: seq<U64>, ksymLen: seq<U32>, c: seq<nat>, j: nat) returns (f: nat)
    requires |ksymFunc| == |ksymLen| && IsCut(jited, ksymFunc, ksymLen, c) && j < |jited|
    ensures f < |c| && c[f] <= j < BlockEnd(jited, c, f)
    ensures forall g :: 0 <= g < |c| && c[g] <= j < BlockEnd(jited, c, g) ==> g == f
  {
    f := 0;
    while f + 1 < |c| && c[f + 1] <= j
      invariant f < |c| && c[f] <= j
    {
      f := f + 1;
    }
    forall g | 0 <= g < |c| && c[g] <= j < BlockEnd(jited, c, g) ensures g == f {
      if g < f {
        CutIncreasing(jited, ksymFunc, ksymLen, c, g + 1, f);
      } else if g > f {
        CutIncreasing(jited, ksymFunc, ksymLen, c, f + 1, g);
      }
    }
  }

  lemma {:induction false} BlockAscends(jited: seq<U64>, next: U64, from: nat, to: nat, i: nat, j: nat)
    requires BlockBody(jited, next, from, to) && from <= i < j < to
    ensures jited[i] < jited[j]
    decreases j
  {
    if i < j - 1 {
      BlockAscends(jited, next, from, to, i, j - 1);
    }
  }

  /** The conditions of a cut on its first functions, up to the block that is being searched. */
  ghost predicate PartialCut(jited: seq<U64>, ksymFunc: seq<U64>, ksymLen: seq<U32>, idx: seq<nat>, i: nat)
    requires |ksymFunc| == |ksymLen|
  {
    && 1 <= |idx| <= |ksymFunc| && idx[0] == 0 && i <= |jited|
    && (forall f :: 0 <= f < |idx| ==> idx[f] < i && jited[idx[f]] == ksymFunc[f])
    && (forall f :: 1 <= f < |idx| ==> CutAt(jited, ksymFunc, ksymLen, f, idx[f - 1], idx[f]))
    && (|idx| < |ksymFunc| ==> BlockBody(jited, ksymFunc[|idx|], idx[|idx| - 1], i))
  }

  /** Every cut begins with `idx`, and its next function does not begin before record `i`. */
  ghost predicate OnlyCut(jited: seq<U64>, ksymFunc: seq<U64>, ksymLen: seq<U32>, idx: seq<nat>, i: nat)
    requires |ksymFunc| == |ksymLen|
  {
    forall c :: IsCut(jited, ksymFunc, ksymLen, c) ==>
        |idx| <= |c| && c[..|idx|] == idx && (|idx| < |c| ==> c[|idx|] >= i)
  }

  lemma SearchBegins(jited: seq<U64>, ksymFunc: seq<U64>, ksymLen: seq<U32>)
    requires |ksymFunc| == |ksymLen| > 0 && |jited| > 0
    ensures ksymFunc[0] == jited[0] ==>
        PartialCut(jited, ksymFunc, ksymLen, [0], 1) && OnlyCut(jited, ksymFunc, ksymLen, [0], 1)
    ensures ksymFunc[0] != jited[0] ==> forall c :: !IsCut(jited, ksymFunc, ksymLen, c)
  {
    forall c | IsCut(jited, ksymFunc, ksymLen, c)
      ensures c[..1] == [0] && (1 < |c| ==> c[1] >= 1) && jited[0] == ksymFunc[0]
    {
    }
  }

  /** What a cut says about its `f`-th function. */
  lemma CutPart(jited: seq<U64>, ksymFunc: seq<U64>, ksymLen: seq<U32>, c: seq<nat>, f: nat)
    requires |ksymFunc| == |ksymLen| && IsCut(jited, ksymFunc, ksymLen, c) && 1 <= f < |c|
    ensures |c| == |ksymFunc| && c[f - 1] < c[f] < |jited| && jited[c[f]] == ksymFunc[f]
    ensures BlockBody(jited, ksymFunc[f], c[f - 1], c[f])
    ensures Extent(ksymFunc[f - 1], jited[c[f] - 1]) <= ksymLen[f - 1]
  {
  }

  lemma NextStart(jited: seq<U64>, ksymFunc: seq<U64>, ksymLen: seq<U32>, idx: seq<nat>, i: nat, c: seq<nat>)
    requires |ksymFunc| == |ksymLen| && OnlyCut(jited, ksymFunc, ksymLen, idx, i) && IsCut(jited, ksymFunc, ksymLen, c)
    requires 1 <= |idx| < |ksymFunc| && idx[|idx| - 1] < i
    ensures |c| == |ksymFunc| && c[..|idx|] == idx && c[|idx|] >= i
    ensures c[|idx|] < |jited| && jited[c[|idx|]] == ksymFunc[|idx|]
    ensures Extent(ksymFunc[|idx| - 1], jited[c[|idx|] - 1]) <= ksymLen[|idx| - 1]
    ensures i < c[|idx|] ==> jited[i] != ksymFunc[|idx|] && jited[i] > jited[i - 1]
    ensures |idx| + 1 < |c| ==> c[|idx| + 1] > c[|idx|]
  {
    hide Extent;
    var f := |idx|;
    assert |c| == |ksymFunc|;
    CutPart(jited, ksymFunc, ksymLen, c, f);
    assert c[..f][f - 1] == idx[f - 1];
  }

  /** The next function begins at record `i`. */
  lemma FunctionFound(jited: seq<U64>, ksymFunc: seq<U64>, ksymLen: seq<U32>, idx: seq<nat>, i: nat)
    requires |ksymFunc| == |ksymLen| && PartialCut(jited, ksymFunc, ksymLen, idx, i)
        && OnlyCut(jited, ksymFunc, ksymLen, idx, i)
    requires |idx| < |ksymFunc| && i < |jited| && jited[i] == ksymFunc[|idx|]
    ensures i > 0 && OnlyCut(jited, ksymFunc, ksymLen, idx + [i], i + 1)
    ensures Extent(ksymFunc[|idx| - 1], jited[i - 1]) <= ksymLen[|idx| - 1] ==>
        PartialCut(jited, ksymFunc, ksymLen, idx + [i], i + 1)
    ensures Extent(ksymFunc[|idx| - 1], jited[i - 1]) > ksymLen[|idx| - 1] ==>
        forall c :: !IsCut(jited, ksymFunc, ksymLen, c)
  {
    hide Extent, IsCut;
    var f := |idx|;
    LastBefore(jited, ksymFunc, ksymLen, idx, i);
    forall c | IsCut(jited, ksymFunc, ksymLen, c)
      ensures f + 1 <= |c| && c[..f + 1] == idx + [i] && (f + 1 < |c| ==> c[f + 1] >= i + 1)
      ensures Extent(ksymFunc[f - 1], jited[i - 1]) <= ksymLen[f - 1]
    {
      NextStart(jited, ksymFunc, ksymLen, idx, i, c);
      assert c[f] == i;
      assert c[..f + 1] == c[..f] + [c[f]];
    }
    if Extent(ksymFunc[f - 1], jited[i - 1]) <= ksymLen[f - 1] {
      PartialFound(jited, ksymFunc, ksymLen, idx, i);
    }
  }

  lemma LastBefore(jited: seq<U64>, ksymFunc: seq<U64>, ksymLen: seq<U32>, idx: seq<nat>, i: nat)
    requires |ksymFunc| == |ksymLen| && PartialCut(jited, ksymFunc, ksymLen, idx, i)
    ensures |idx| >= 1 && idx[|idx| - 1] < i
  {
  }

  lemma PartialFound(jited: seq<U64>, ksymFunc: seq<U64>, ksymLen: seq<U32>, idx: seq<nat>, i: nat)
    requires |ksymFunc| == |ksymLen| && PartialCut(jited, ksymFunc, ksymLen, idx, i)
    requires |idx| < |ksymFunc| && 0 < i < |jited| && jited[i] == ksymFunc[|idx|]
    requires Extent(ksymFunc[|idx| - 1], jited[i - 1]) <= ksymLen[|idx| - 1]
    ensures PartialCut(jited, ksymFunc, ksymLen, idx + [i], i + 1)
  {
    hide Extent, BlockBody;
    var n := idx + [i];
    forall f | 1 <= f < |n| ensures CutAt(jited, ksymFunc, ksymLen, f, n[f - 1], n[f]) {
      assert n[f - 1] == idx[f - 1];
      if f < |idx| {
        assert CutAt(jited, ksymFunc, ksymLen, f, idx[f - 1], idx[f]);
      }
    }
    if |n| < |ksymFunc| {
      NothingYet(jited, ksymFunc[|n|], i);
    }
  }

  lemma NothingYet(jited: seq<U64>, next: U64, i: nat)
    requires i < |jited|
    ensures BlockBody(jited, next, i, i + 1)
  {
  }

  /** Record `i` belongs to the function found last. */
  lemma FunctionGoesOn(jited: seq<U64>, ksymFunc: seq<U64>, ksymLen: seq<U32>, idx: seq<nat>, i: nat)
    requires |ksymFunc| == |ksymLen| && PartialCut(jited, ksymFunc, ksymLen, idx, i)
        && OnlyCut(jited, ksymFunc, ksymLen, idx, i)
    requires |idx| < |ksymFunc| && i < |jited| && jited[i] != ksymFunc[|idx|]
    ensures i > 0 && OnlyCut(jited, ksymFunc, ksymLen, idx, i + 1)
    ensures jited[i] > jited[i - 1] ==> PartialCut(jited, ksymFunc, ksymLen, idx, i + 1)
    ensures jited[i] <= jited[i - 1] ==> forall c :: !IsCut(jited, ksymFunc, ksymLen, c)
  {
    hide Extent, IsCut;
    LastBefore(jited, ksymFunc, ksymLen, idx, i);
    forall c | IsCut(jited, ksymFunc, ksymLen, c)
      ensures |idx| < |c| && c[..|idx|] == idx && c[|idx|] >= i + 1 && jited[i] > jited[i - 1]
    {
      NextStart(jited, ksymFunc, ksymLen, idx, i, c);
    }
  }

  lemma SearchEnds(jited: seq<U64>, ksymFunc: seq<U64>, ksymLen: seq<U32>, idx: seq<nat>, i: nat)
    requires |ksymFunc| == |ksymLen| && PartialCut(jited, ksymFunc, ksymLen, idx, i)
        && OnlyCut(jited, ksymFunc, ksymLen, idx, i)
    ensures |idx| == |ksymFunc| ==> IsCut(jited, ksymFunc, ksymLen, idx)
    ensures |idx| < |ksymFunc| && i == |jited| ==> forall c :: !IsCut(jited, ksymFunc, ksymLen, c)
  {
    hide Extent;
  }

  /** The records from `start` up to `r` are at or below the address, and the next one is above.
      There is no answer when no record is left or the address lies before them all. */
  ghost predicate Located(jited: seq<U64>, addr: U64, start: nat, end: nat, r: Option<nat>)
    requires end <= |jited|
  {
    match r
    case None => start >= end || addr < jited[start]
    case Some(k) =>
      && start <= k < end
      && (forall j :: start <= j <= k ==> jited[j] <= addr)
      && (k + 1 < end ==> addr < jited[k + 1])
  }

  /** Record `r` is the last one at or below `addr` and has the greatest address of them all;
      without an answer there is no such record. */
  ghost predicate Greatest(jited: seq<U64>, addr: U64, start: nat, end: nat, r: Option<nat>)
    requires end <= |jited|
  {
    match r
    case None => forall j :: start <= j < end ==> addr < jited[j]
    case Some(k) =>
      && start <= k < end && jited[k] <= addr
      && forall j :: start <= j < end && jited[j] <= addr ==> jited[j] <= jited[k] && j <= k
  }

  /** No record lies below the one before it. */
  ghost predicate Climbs(jited: seq<U64>, start: nat, end: nat) {
    end <= |jited| && forall j :: start < j < end ==> jited[j - 1] <= jited[j]
  }

  lemma {:induction false} ClimbsFar(jited: seq<U64>, start: nat, end: nat, i: nat, j: nat)
    requires Climbs(jited, start, end) && start <= i <= j < end
    ensures jited[i] <= jited[j]
    decreases j
  {
    if i < j {
      ClimbsFar(jited, start, end, i, j - 1);
    }
  }

  lemma LocatedIsGreatest(jited: seq<U64>, addr: U64, start: nat, end: nat, r: Option<nat>)
    requires Climbs(jited, start, end) && Located(jited, addr, start, end, r)
    ensures Greatest(jited, addr, start, end, r)
  {
    var k := if r.Some? then r.value + 1 else start;
    forall j | start <= j < end ensures j < k ==> jited[j] <= jited[k - 1]
      ensures j >= k ==> addr < jited[j]
    {
      if j < k {
        ClimbsFar(jited, start, end, j, k - 1);
      } else {
        ClimbsFar(jited, start, end, k, j);
      }
    }
  }

  /** The record located is the greatest at or below the address, whatever the address, exactly
      if the records climb. */
  lemma LocatedExact(jited: seq<U64>, start: nat, end: nat)
    requires end <= |jited|
    ensures Climbs(jited, start, end) <==>
        forall addr: U64, r: Option<nat> :: Located(jited, addr, start, end, r) ==> Greatest(jited, addr, start, end, r)
  {
    if Climbs(jited, start, end) {
      forall addr: U64, r: Option<nat> | Located(jited, addr, start, end, r)
        ensures Greatest(jited, addr, start, end, r)
      {
        LocatedIsGreatest(jited, addr, start, end, r);
      }
    } else {
      var j :| start < j < end && jited[j - 1] > jited[j];
      var r := Locate(jited, jited[j], start, end);
      assert r.Some? ==> r.value < j - 1;
      assert !Greatest(jited, jited[j], start, end, r);
    }
  }

  lemma Locate(jited: seq<U64>, addr: U64, start: nat, end: nat) returns (r: Option<nat>)
    requires start < end <= |jited|
    ensures Located(jited, addr, start, end, r)
  {
    if addr < jited[start] {
      return None;
    }
    var k := start;
    while k + 1 < end && jited[k + 1] <= addr
      invariant start <= k < end && forall j :: start <= j <= k ==> jited[j] <= addr
    {
      k := k + 1;
    }
    r := Some(k);
  }

  /** `struct bpf_prog_linfo`; `jited` are the addresses of the records. */
  class ProgLinfo {
    const jited: seq<U64>
    const nrJitedFunc: nat
    const nrPerFunc: array<nat>
    const funcIdx: array<nat>

    constructor (jited: seq<U64>, nrJitedFunc: nat)
      ensures this.jited == jited && this.nrJitedFunc == nrJitedFunc && fresh(nrPerFunc) && fresh(funcIdx)
      ensures nrPerFunc != funcIdx && nrPerFunc.Length == funcIdx.Length == nrJitedFunc
    {
      this.jited, this.nrJitedFunc := jited, nrJitedFunc;
      nrPerFunc := new nat[nrJitedFunc](_ => 0);
      funcIdx := new nat[nrJitedFunc](_ => 0);
    }

    ghost predicate Shape()
      reads this
    {
      nrPerFunc != funcIdx && nrPerFunc.Length == funcIdx.Length == nrJitedFunc && |jited| > 0
    }

    /** The counts are the lengths of the blocks. */
    ghost predicate Counts(n: nat)
      requires Shape() && n <= nrJitedFunc
      reads this, nrPerFunc, funcIdx
    {
      forall f :: 0 <= f < n ==> funcIdx[f] + nrPerFunc[f] == BlockEnd(jited, funcIdx[..], f)
    }

    /** `dissect_jited_func` accepts exactly the lists that can be cut, and cuts them. */
    method Dissect(ksymFunc: seq<U64>, ksymLen: seq<U32>) returns (err: int)
      requires Shape() && |ksymFunc| == |ksymLen| == nrJitedFunc > 0
      modifies nrPerFunc, funcIdx
      ensures err == 0 || err == -EINVAL
      ensures err == 0 <==> exists c :: IsCut(jited, ksymFunc, ksymLen, c)
      ensures err == 0 ==> IsCut(jited, ksymFunc, ksymLen, funcIdx[..]) && Counts(nrJitedFunc)
    {
      hide IsCut, PartialCut, OnlyCut, Extent, BlockBody;
      SearchBegins(jited, ksymFunc, ksymLen);
      if ksymFunc[0] != jited[0] {
        return -EINVAL;
      }
      funcIdx[0] := 0;
      assert funcIdx[..1] == [0];
      var prevI, i: nat, f: nat := 0, 1, 1;
      while i < |jited| && f < nrJitedFunc
        invariant 1 <= f <= nrJitedFunc && 1 <= i <= |jited| && prevI == funcIdx[f - 1] < i
        invariant PartialCut(jited, ksymFunc, ksymLen, funcIdx[..f], i)
            && OnlyCut(jited, ksymFunc, ksymLen, funcIdx[..f], i)
        invariant forall g :: 0 <= g < f - 1 ==> funcIdx[g] + nrPerFunc[g] == funcIdx[g + 1]
      {
        if ksymFunc[f] == jited[i] {
          FunctionFound(jited, ksymFunc, ksymLen, funcIdx[..f], i);
          ghost var idx := funcIdx[..f];
          funcIdx[f] := i;
          assert funcIdx[..f + 1] == idx + [i];
          if Extent(ksymFunc[f - 1], jited[i - 1]) > ksymLen[f - 1] {
            return -EINVAL;
          }
          nrPerFunc[f - 1] := i - prevI;
          prevI := i;
          f := f + 1;
        } else {
          FunctionGoesOn(jited, ksymFunc, ksymLen, funcIdx[..f], i);
          if jited[i] <= jited[i - 1] {
            return -EINVAL;
          }
        }
        i := i + 1;
      }
      SearchEnds(jited, ksymFunc, ksymLen, funcIdx[..f], i);
      if f != nrJitedFunc {
        return -EINVAL;
      }
      nrPerFunc[nrJitedFunc - 1] := |jited| - prevI;
      assert funcIdx[..f] == funcIdx[..];
      return 0;
    }

    /** `bpf_prog_linfo__lfind_addr_func`: the record that an address belongs to, among those of
        the function from the `nrSkip`-th on. Nothing checks that the records of the last function
        climb. */
    method LfindAddrFunc(addr: U64, f: nat, nrSkip: nat, ghost ksymFunc: seq<U64>, ghost ksymLen: seq<U32>)
        returns (r: Option<nat>)
      requires Shape() && |ksymFunc| == |ksymLen| && IsCut(jited, ksymFunc, ksymLen, funcIdx[..]) && Counts(nrJitedFunc)
      ensures f >= nrJitedFunc ==> r.None?
      ensures f < nrJitedFunc ==> BlockEnd(jited, funcIdx[..], f) <= |jited|
      ensures f < nrJitedFunc ==> Located(jited, addr, funcIdx[f] + nrSkip, BlockEnd(jited, funcIdx[..], f), r)
      ensures f + 1 < nrJitedFunc ==> Climbs(jited, funcIdx[f] + nrSkip, BlockEnd(jited, funcIdx[..], f))
      ensures f < nrJitedFunc && Climbs(jited, funcIdx[f] + nrSkip, BlockEnd(jited, funcIdx[..], f)) ==>
          Greatest(jited, addr, funcIdx[f] + nrSkip, BlockEnd(jited, funcIdx[..], f), r)
    {
      hide IsCut, Counts, Greatest;
      if f >= nrJitedFunc {
        return None;
      }
      ghost var end := BlockEnd(jited, funcIdx[..], f);
      var nrLinfo := nrPerFunc[f];
      EndInRange(ksymFunc, ksymLen, f);
      if nrSkip >= nrLinfo {
        WhenClimbing(addr, funcIdx[f] + nrSkip, end, None);
        return None;
      }
      var start := funcIdx[f] + nrSkip;
      if addr < jited[start] {
        WhenClimbing(addr, start, end, None);
        return None;
      }
      var i := 0;
      while i < nrLinfo - nrSkip && addr >= jited[start + i]
        invariant i <= nrLinfo - nrSkip && (i > 0 || addr >= jited[start])
        invariant forall j :: start <= j < start + i ==> jited[j] <= addr
      {
        i := i + 1;
      }
      r := Some(start + i - 1);
      WhenClimbing(addr, start, end, r);
    }

    lemma WhenClimbing(addr: U64, start: nat, end: nat, r: Option<nat>)
      requires end <= |jited| && Located(jited, addr, start, end, r)
      ensures Climbs(jited, start, end) ==> Greatest(jited, addr, start, end, r)
    {
      if Climbs(jited, start, end) {
        LocatedIsGreatest(jited, addr, start, end, r);
      }
    }

    lemma EndInRange(ksymFunc: seq<U64>, ksymLen: seq<U32>, f: nat)
      requires Shape() && |ksymFunc| == |ksymLen| && IsCut(jited, ksymFunc, ksymLen, funcIdx[..]) && Counts(nrJitedFunc)
          && f < nrJitedFunc
      ensures |ksymFunc| == nrJitedFunc && funcIdx[f] + nrPerFunc[f] == BlockEnd(jited, funcIdx[..], f) <= |jited|
      ensures f + 1 < nrJitedFunc ==> BlockBody(jited, ksymFunc[f + 1], funcIdx[f], BlockEnd(jited, funcIdx[..], f))
    {
    }
  }
}
