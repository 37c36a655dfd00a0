/** The string section of BTF: NUL-terminated strings one after the other, referred to by
    the offset of their first byte. */
module Strings {
  import opened Basics
  import opened Multisets

  /** `btf_parse_str_sec`: the section is not empty, begins with the empty string and ends
      with a terminator. */
  predicate WfSection(sec: seq<Octet>) {
    |sec| > 0 && sec[0] == 0 && sec[|sec| - 1] == 0
  }

  /** `strlen` */
  function Len(sec: seq<Octet>, p: nat): (n: nat)
    requires p < |sec| && sec[|sec| - 1] == 0
    ensures p + n < |sec| && sec[p + n] == 0
    ensures forall k :: p <= k < p + n ==> sec[k] != 0
    decreases |sec| - p
  {
    if sec[p] == 0 then 0 else 1 + Len(sec, p + 1)
  }

  /** The string at an offset. */
  function Str(sec: seq<Octet>, p: nat): seq<Octet>
    requires p < |sec| && sec[|sec| - 1] == 0
  {
    sec[p..p + Len(sec, p)]
  }

  /** The string at an offset; offsets beyond the section read as empty. */
  function NameAt(sec: seq<Octet>, c: nat): seq<Octet> {
    if c < |sec| && sec[|sec| - 1] == 0 then Str(sec, c) else []
  }

  /** A name is the bytes from its offset up to the next terminator. */
  lemma NameReads(sec: seq<Octet>, p: nat)
    requires WfSection(sec) && p < |sec|
    ensures var s := NameAt(sec, p);
      && 0 !in s && p + |s| < |sec| && sec[p..p + |s| + 1] == s + [0]
  {
  }

  /** The offsets at which strings start, from `p` on. */
  function Starts(sec: seq<Octet>, p: nat): seq<nat>
    requires p <= |sec| && (|sec| > 0 ==> sec[|sec| - 1] == 0)
    decreases |sec| - p
  {
    if p == |sec| then [] else [p] + Starts(sec, p + Len(sec, p) + 1)
  }

  lemma {:induction false} StartsFacts(sec: seq<Octet>, p: nat)
    requires p <= |sec| && (|sec| > 0 ==> sec[|sec| - 1] == 0)
    ensures forall k {:trigger Starts(sec, p)[k]} :: 0 <= k < |Starts(sec, p)| ==> p <= Starts(sec, p)[k] < |sec|
    ensures forall j, k :: 0 <= j < k < |Starts(sec, p)| ==> Starts(sec, p)[j] < Starts(sec, p)[k]
    ensures p < |sec| ==> Starts(sec, p) != [] && Starts(sec, p)[0] == p
    decreases |sec| - p
  {
    if p < |sec| {
      StartsFacts(sec, p + Len(sec, p) + 1);
    }
  }

  // ---------------------------------------------------------------- strcmp

  /** `strcmp(a, b) <= 0`, on strings without their terminators. */
  predicate AtMost(a: seq<Octet>, b: seq<Octet>) {
    if a == [] then true
    else if b == [] then false
    else if a[0] != b[0] then a[0] < b[0]
    else AtMost(a[1..], b[1..])
  }

  lemma {:induction false} AtMostTotal(a: seq<Octet>, b: seq<Octet>)
    ensures AtMost(a, b) || AtMost(b, a)
    ensures AtMost(a, b) && AtMost(b, a) ==> a == b
    ensures a == b ==> AtMost(a, b)
  {
    if a != [] && b != [] && a[0] == b[0] {
      AtMostTotal(a[1..], b[1..]);
      assert a == [a[0]] + a[1..] && b == [b[0]] + b[1..];
    }
  }

  lemma {:induction false} AtMostTransitive(a: seq<Octet>, b: seq<Octet>, c: seq<Octet>)
    requires AtMost(a, b) && AtMost(b, c)
    ensures AtMost(a, c)
  {
    if a != [] && b != [] && c != [] && a[0] == b[0] == c[0] {
      AtMostTransitive(a[1..], b[1..], c[1..]);
    }
  }

  // ---------------------------------------------------------------- the index of strings

  /** `struct btf_str_ptr`; `off` is the old offset, `newOff` is set for used strings only. */
  datatype StrPtr = StrPtr(off: nat, used: bool, newOff: nat)

  /** Bytes taken by the strings of a list, terminators included. */
  function Bytes(sec: seq<Octet>, ptrs: seq<StrPtr>): nat
    requires |sec| > 0 && sec[|sec| - 1] == 0 && forall k {:trigger ptrs[k]} :: 0 <= k < |ptrs| ==> ptrs[k].off < |sec|
  {
    if ptrs == [] then 0 else Bytes(sec, ptrs[..|ptrs| - 1]) + Len(sec, ptrs[|ptrs| - 1].off) + 1
  }

  predicate InSection(sec: seq<Octet>, ptrs: seq<StrPtr>) {
    |sec| > 0 && sec[|sec| - 1] == 0 && forall k {:trigger ptrs[k]} :: 0 <= k < |ptrs| ==> ptrs[k].off < |sec|
  }

  lemma {:induction false} BytesAppend(sec: seq<Octet>, a: seq<StrPtr>, b: seq<StrPtr>)
    requires InSection(sec, a) && InSection(sec, b)
    ensures InSection(sec, a + b) && Bytes(sec, a + b) == Bytes(sec, a) + Bytes(sec, b)
  {
    if b == [] {
      assert a + b == a;
    } else {
      var n := |b| - 1;
      BytesAppend(sec, a, b[..n]);
      assert (a + b)[..|a + b| - 1] == a + b[..n];
    }
  }

  lemma RemoveLast<T>(a: seq<T>, b: seq<T>, k: nat)
    requires a != [] && multiset(a) == multiset(b) && k < |b| && b[k] == a[|a| - 1]
    ensures multiset(b[..k] + b[k + 1..]) == multiset(a[..|a| - 1])
  {
    var n := |a| - 1;
    assert a == a[..n] + [a[n]];
    assert b == b[..k] + [b[k]] + b[k + 1..];
    Cancel(multiset(b[..k] + b[k + 1..]), multiset{a[n]}, multiset(a[..n]));
  }

  /** Reordering does not change the number of bytes. */
  lemma {:induction false} BytesPermuted(sec: seq<Octet>, a: seq<StrPtr>, b: seq<StrPtr>)
    requires InSection(sec, a) && InSection(sec, b) && multiset(a) == multiset(b)
    ensures Bytes(sec, a) == Bytes(sec, b)
  {
    if a == [] {
      assert |b| == |multiset(b)| == 0;
    } else {
      var n := |a| - 1;
      assert a[n] in multiset(a);
      var k :| 0 <= k < |b| && b[k] == a[n];
      var l, r := b[..k], b[k + 1..];
      assert b == l + [b[k]] + r;
      RemoveLast(a, b, k);
      BytesPermuted(sec, a[..n], l + r);
      BytesAppend(sec, l, r);
      BytesAppend(sec, l, [b[k]]);
      BytesAppend(sec, l + [b[k]], r);
      assert Bytes(sec, [b[k]]) == Len(sec, a[n].off) + 1 by { assert [b[k]][..0] == []; }
    }
  }

  /** The index covers the whole section. */
  ghost predicate IsIndex(sec: seq<Octet>, ptrs: seq<StrPtr>) {
    WfSection(sec) && |ptrs| == |Starts(sec, 0)| && forall k {:trigger ptrs[k]} :: 0 <= k < |ptrs| ==>
        ptrs[k].off == Starts(sec, 0)[k]
  }

  lemma {:induction false} IndexBytes(sec: seq<Octet>, ptrs: seq<StrPtr>, p: nat)
    requires WfSection(sec) && p <= |sec| && |ptrs| == |Starts(sec, p)|
    requires forall k {:trigger ptrs[k]} :: 0 <= k < |ptrs| ==> ptrs[k].off == Starts(sec, p)[k]
    ensures InSection(sec, ptrs) && Bytes(sec, ptrs) == |sec| - p
    decreases |sec| - p
  {
    StartsFacts(sec, p);
    if p < |sec| {
      var q := p + Len(sec, p) + 1;
      IndexBytes(sec, ptrs[1..], q);
      assert ptrs == [ptrs[0]] + ptrs[1..];
      BytesAppend(sec, [ptrs[0]], ptrs[1..]);
      assert Bytes(sec, [ptrs[0]]) == Len(sec, p) + 1 by { assert [ptrs[0]][..0] == []; }
    }
  }

  // ---------------------------------------------------------------- sorting

  /** Ascending by content, as `str_sort_by_content` asks of `qsort`. */
  ghost predicate SortedByContent(sec: seq<Octet>, ptrs: seq<StrPtr>)
    requires InSection(sec, ptrs)
  {
    forall j, k {:trigger ptrs[j], ptrs[k]} :: 0 <= j <= k < |ptrs| ==>
        AtMost(Str(sec, ptrs[j].off), Str(sec, ptrs[k].off))
  }

  /** Ascending by position, as `str_sort_by_offset` asks of `qsort`. */
  ghost predicate SortedByOffset(ptrs: seq<StrPtr>) {
    forall j, k {:trigger ptrs[j], ptrs[k]} :: 0 <= j < k < |ptrs| ==> ptrs[j].off < ptrs[k].off
  }

  /** `qsort` with `str_sort_by_content`; the order of equal strings is not relied on. */
  method SortByContent(sec: seq<Octet>, ptrs: seq<StrPtr>) returns (qs: seq<StrPtr>)
    requires InSection(sec, ptrs)
    ensures multiset(qs) == multiset(ptrs) && |qs| == |ptrs| && InSection(sec, qs) && SortedByContent(sec, qs)
  {
    qs := [];
    for i := 0 to |ptrs|
      invariant multiset(qs) == multiset(ptrs[..i]) && |qs| == i && InSection(sec, qs) && SortedByContent(sec, qs)
    {
      qs := InsertByContent(sec, qs, ptrs[i]);
      assert ptrs[..i + 1] == ptrs[..i] + [ptrs[i]];
    }
    assert ptrs[..|ptrs|] == ptrs;
  }

  method InsertByContent(sec: seq<Octet>, ptrs: seq<StrPtr>, x: StrPtr) returns (qs: seq<StrPtr>)
    requires InSection(sec, ptrs) && SortedByContent(sec, ptrs) && x.off < |sec|
    ensures multiset(qs) == multiset(ptrs) + multiset{x} && |qs| == |ptrs| + 1 && InSection(sec, qs)
        && SortedByContent(sec, qs)
  {
    hide AtMost, Str;
    var pos := 0;
    while pos < |ptrs| && AtMost(Str(sec, ptrs[pos].off), Str(sec, x.off))
      invariant pos <= |ptrs|
      invariant forall k {:trigger ptrs[k]} :: 0 <= k < pos ==> AtMost(Str(sec, ptrs[k].off), Str(sec, x.off))
    {
      pos := pos + 1;
    }
    qs := ptrs[..pos] + [x] + ptrs[pos..];
    assert ptrs == ptrs[..pos] + ptrs[pos..];
    InsertedSorted(sec, ptrs, x, pos);
  }

  lemma InsertedSorted(sec: seq<Octet>, ptrs: seq<StrPtr>, x: StrPtr, pos: nat)
    requires InSection(sec, ptrs) && SortedByContent(sec, ptrs) && x.off < |sec| && pos <= |ptrs|
    requires forall k {:trigger ptrs[k]} :: 0 <= k < pos ==> AtMost(Str(sec, ptrs[k].off), Str(sec, x.off))
    requires pos < |ptrs| ==> !AtMost(Str(sec, ptrs[pos].off), Str(sec, x.off))
    ensures var qs := ptrs[..pos] + [x] + ptrs[pos..]; InSection(sec, qs) && SortedByContent(sec, qs)
  {
    hide AtMost, Str;
    var qs := ptrs[..pos] + [x] + ptrs[pos..];
    AtMostTotal(Str(sec, x.off), Str(sec, x.off));
    forall k | pos <= k < |ptrs| ensures AtMost(Str(sec, x.off), Str(sec, ptrs[k].off)) {
      AtMostTotal(Str(sec, x.off), Str(sec, ptrs[pos].off));
      AtMostTransitive(Str(sec, x.off), Str(sec, ptrs[pos].off), Str(sec, ptrs[k].off));
    }
    forall j, k {:trigger qs[j], qs[k]} | 0 <= j <= k < |qs| ensures AtMost(Str(sec, qs[j].off), Str(sec, qs[k].off)) {
      assert qs[j] == if j < pos then ptrs[j] else if j == pos then x else ptrs[j - 1];
      assert qs[k] == if k < pos then ptrs[k] else if k == pos then x else ptrs[k - 1];
    }
  }

  /** `qsort` with `str_sort_by_offset`. */
  method SortByOffset(ptrs: seq<StrPtr>) returns (qs: seq<StrPtr>)
    requires forall j, k {:trigger ptrs[j], ptrs[k]} :: 0 <= j < k < |ptrs| ==> ptrs[j].off != ptrs[k].off
    ensures multiset(qs) == multiset(ptrs) && |qs| == |ptrs| && SortedByOffset(qs)
  {
    qs := [];
    for i := 0 to |ptrs|
      invariant multiset(qs) == multiset(ptrs[..i]) && |qs| == i && SortedByOffset(qs)
    {
      forall k | 0 <= k < |qs| ensures qs[k].off != ptrs[i].off {
        assert qs[k] in multiset(ptrs[..i]);
        var j :| 0 <= j < i && ptrs[..i][j] == qs[k];
        assert ptrs[j].off != ptrs[i].off;
      }
      qs := InsertByOffset(qs, ptrs[i]);
      assert ptrs[..i + 1] == ptrs[..i] + [ptrs[i]];
    }
    assert ptrs[..|ptrs|] == ptrs;
  }

  method InsertByOffset(ptrs: seq<StrPtr>, x: StrPtr) returns (qs: seq<StrPtr>)
    requires SortedByOffset(ptrs) && forall k :: 0 <= k < |ptrs| ==> ptrs[k].off != x.off
    ensures multiset(qs) == multiset(ptrs) + multiset{x} && |qs| == |ptrs| + 1 && SortedByOffset(qs)
  {
    var pos := 0;
    while pos < |ptrs| && ptrs[pos].off < x.off
      invariant pos <= |ptrs|
      invariant forall k :: 0 <= k < pos ==> ptrs[k].off < x.off
    {
      pos := pos + 1;
    }
    qs := ptrs[..pos] + [x] + ptrs[pos..];
    assert ptrs == ptrs[..pos] + ptrs[pos..];
    InsertedByOffset(ptrs, x, pos);
  }

  lemma InsertedByOffset(ptrs: seq<StrPtr>, x: StrPtr, pos: nat)
    requires SortedByOffset(ptrs) && pos <= |ptrs|
    requires forall k {:trigger ptrs[k]} :: 0 <= k < pos ==> ptrs[k].off < x.off
    requires pos < |ptrs| ==> x.off < ptrs[pos].off
    ensures SortedByOffset(ptrs[..pos] + [x] + ptrs[pos..])
  {
    var qs := ptrs[..pos] + [x] + ptrs[pos..];
    assert forall k {:trigger ptrs[k]} :: pos <= k < |ptrs| ==> x.off < ptrs[k].off;
    forall j, k {:trigger qs[j], qs[k]} | 0 <= j < k < |qs| ensures qs[j].off < qs[k].off {
      assert qs[j] == if j < pos then ptrs[j] else if j == pos then x else ptrs[j - 1];
      assert qs[k] == if k < pos then ptrs[k] else if k == pos then x else ptrs[k - 1];
    }
  }

  /** `bsearch` by position. */
  method FindByOffset(ptrs: seq<StrPtr>, off: nat) returns (r: Option<nat>)
    requires SortedByOffset(ptrs)
    ensures r.Some? ==> r.value < |ptrs| && ptrs[r.value].off == off
    ensures r.None? ==> forall k :: 0 <= k < |ptrs| ==> ptrs[k].off != off
  {
    var lo, hi := 0, |ptrs|;
    while lo < hi
      invariant lo <= hi <= |ptrs|
      invariant forall k :: 0 <= k < lo ==> ptrs[k].off < off
      invariant forall k :: hi <= k < |ptrs| ==> off < ptrs[k].off
    {
      var mid := (lo + hi) / 2;
      if ptrs[mid].off == off {
        return Some(mid);
      } else if off < ptrs[mid].off {
        hi := mid;
      } else {
        lo := mid + 1;
      }
    }
    return None;
  }

  /** The first loop of `btf_dedup_strings`: the index of all strings. */
  method BuildIndex(sec: seq<Octet>) returns (ptrs: seq<StrPtr>)
    requires WfSection(sec)
    ensures IsIndex(sec, ptrs) && forall k :: 0 <= k < |ptrs| ==> !ptrs[k].used
  {
    ptrs := [];
    var p := 0;
    while p < |sec|
      invariant p <= |sec|
      invariant |ptrs| + |Starts(sec, p)| == |Starts(sec, 0)| && Starts(sec, 0)[|ptrs|..] == Starts(sec, p)
      invariant forall k {:trigger ptrs[k]} :: 0 <= k < |ptrs| ==> ptrs[k].off == Starts(sec, 0)[k] && !ptrs[k].used
      decreases |sec| - p
    {
      var n := 0;
      while sec[p + n] != 0
        invariant n <= Len(sec, p)
        decreases Len(sec, p) - n
      {
        n := n + 1;
      }
      ptrs := ptrs + [StrPtr(p, false, 0)];
      p := p + n + 1;
    }
  }

  // ---------------------------------------------------------------- emission

  /** Strings laid out one after the other, each with its terminator. */
  function Join(es: seq<seq<Octet>>): seq<Octet> {
    if es == [] then [] else Join(es[..|es| - 1]) + es[|es| - 1] + [0]
  }

  ghost predicate NoNul(s: seq<Octet>) { forall k :: 0 <= k < |s| ==> s[k] != 0 }

  ghost predicate Ascending(es: seq<seq<Octet>>) {
    && (forall j {:trigger es[j]} :: 0 <= j < |es| ==> NoNul(es[j]))
    && forall j, k {:trigger es[j], es[k]} :: 0 <= j < k < |es| ==> AtMost(es[j], es[k]) && es[j] != es[k]
  }

  lemma StrHasNoNul(sec: seq<Octet>, p: nat)
    requires p < |sec| && sec[|sec| - 1] == 0
    ensures NoNul(Str(sec, p))
  {
  }

  /** A string that begins at `p` and ends at the first terminator is the string at `p`. */
  lemma {:induction false} StrAt(sec: seq<Octet>, p: nat, s: seq<Octet>)
    requires NoNul(s) && p + |s| < |sec| && sec[|sec| - 1] == 0 && sec[p..p + |s|] == s && sec[p + |s|] == 0
    ensures Str(sec, p) == s
    decreases |s|
  {
    var n := Len(sec, p);
  }

  lemma StrAppended(out: seq<Octet>, s: seq<Octet>)
    requires NoNul(s)
    ensures Str(out + s + [0], |out|) == s
  {
    var sec := out + s + [0];
    assert sec[|out|..|out| + |s|] == s;
    StrAt(sec, |out|, s);
  }

  /** Every joined string can be read back at its offset. */
  lemma {:induction false} JoinReads(es: seq<seq<Octet>>, j: nat)
    requires j < |es| && forall k {:trigger es[k]} :: 0 <= k < |es| ==> NoNul(es[k])
    ensures |Join(es[..j])| < |Join(es)| && Join(es)[|Join(es)| - 1] == 0
    ensures Str(Join(es), |Join(es[..j])|) == es[j]
  {
    var n := |es| - 1;
    if j == n {
      StrAppended(Join(es[..n]), es[n]);
    } else {
      JoinReads(es[..n], j);
      assert es[..n][..j] == es[..j];
      assert Join(es) == Join(es[..n]) + (es[n] + [0]);
      StrGrows(Join(es[..n]), es[n] + [0], |Join(es[..j])|);
    }
  }

  /** A string is emitted at one place only. */
  lemma RelocatedOnce(sec: seq<Octet>, es: seq<seq<Octet>>, a: StrPtr, b: StrPtr)
    requires Ascending(es) && Relocated(sec, es, a) && Relocated(sec, es, b)
    ensures a.newOff < |Join(es)| && Join(es)[|Join(es)| - 1] == 0 && Str(Join(es), a.newOff) == Str(sec, a.off)
    ensures a.newOff == b.newOff <==> Str(sec, a.off) == Str(sec, b.off)
  {
    hide Str, Join, AtMost;
    var j :| 0 <= j < |es| && es[j] == Str(sec, a.off) && a.newOff == |Join(es[..j])|;
    var k :| 0 <= k < |es| && es[k] == Str(sec, b.off) && b.newOff == |Join(es[..k])|;
    JoinReads(es, j);
    JoinReads(es, k);
  }

  lemma StrLength(sec: seq<Octet>, p: nat)
    requires p < |sec| && sec[|sec| - 1] == 0
    ensures |Str(sec, p)| == Len(sec, p)
  {
  }

  /** Emitted strings stay readable when more strings follow. */
  lemma StrGrows(out: seq<Octet>, more: seq<Octet>, p: nat)
    requires p < |out| && out[|out| - 1] == 0 && more != [] && more[|more| - 1] == 0
    ensures Str(out + more, p) == Str(out, p)
  {
    var s := Str(out, p);
    StrHasNoNul(out, p);
    StrAt(out + more, p, s);
  }

  /** The string that the pointer `k` refers to. */
  function StrOf(sec: seq<Octet>, ptrs: seq<StrPtr>, k: nat): seq<Octet>
    requires InSection(sec, ptrs) && k < |ptrs|
  {
    Str(sec, ptrs[k].off)
  }

  /** Only new offsets were assigned. */
  ghost predicate SameKeys(p0: seq<StrPtr>, p: seq<StrPtr>) {
    |p| == |p0| && forall k {:trigger p[k]} {:trigger p0[k]} :: 0 <= k < |p| ==>
        p[k].off == p0[k].off && p[k].used == p0[k].used
  }

  /** The new offset of a string is where that string was emitted. */
  ghost predicate Relocated(sec: seq<Octet>, es: seq<seq<Octet>>, ptr: StrPtr) {
    && ptr.off < |sec| && sec[|sec| - 1] == 0
    && exists j {:trigger es[..j]} :: 0 <= j < |es| && es[j] == Str(sec, ptr.off) && ptr.newOff == |Join(es[..j])|
  }

  /** Some pointer among the first `n` uses the string. */
  ghost predicate UsedBelow(sec: seq<Octet>, p0: seq<StrPtr>, n: nat, s: seq<Octet>)
    requires InSection(sec, p0) && n <= |p0|
  {
    exists j :: 0 <= j < n && p0[j].used && StrOf(sec, p0, j) == s
  }

  /** The groups of equal strings among the first `n` pointers are emitted as `es`. */
  ghost predicate EmittedTo(sec: seq<Octet>, p0: seq<StrPtr>, p: seq<StrPtr>, out: seq<Octet>, es: seq<seq<Octet>>,
      n: nat)
  {
    && InSection(sec, p0) && SameKeys(p0, p) && n <= |p0|
    && out == Join(es) && Ascending(es)
    && (forall j {:trigger es[j]} :: 0 <= j < |es| ==> UsedBelow(sec, p0, n, es[j]))
    && (forall k {:trigger p[k]} :: 0 <= k < n && UsedBelow(sec, p0, n, StrOf(sec, p0, k)) ==> Relocated(sec, es, p[k]))
    && |out| <= Bytes(sec, p0[..n])
    && (forall j, k {:trigger StrOf(sec, p0, j), StrOf(sec, p0, k)} :: 0 <= j < n <= k < |p0| ==>
        StrOf(sec, p0, j) != StrOf(sec, p0, k))
  }

  /** Pointers `g` up to `i` refer to one string; `used` tells whether any is used. */
  ghost predicate IsGroup(sec: seq<Octet>, p0: seq<StrPtr>, g: nat, i: nat, used: bool)
    requires InSection(sec, p0)
  {
    && g < i <= |p0|
    && (forall k {:trigger StrOf(sec, p0, k)} :: g <= k < i ==> StrOf(sec, p0, k) == StrOf(sec, p0, g))
    && (used <==> exists k :: g <= k < i && p0[k].used)
  }

  lemma GroupBytes(sec: seq<Octet>, p0: seq<StrPtr>, g: nat, i: nat)
    requires InSection(sec, p0) && g < i <= |p0|
    ensures Bytes(sec, p0[..i]) >= Bytes(sec, p0[..g]) + Len(sec, p0[g].off) + 1
    decreases i
  {
    assert p0[..i][..i - 1] == p0[..i - 1];
    if i > g + 1 {
      GroupBytes(sec, p0, g, i - 1);
    }
  }

  /** The next group starts where the string changes, and no earlier string comes back. */
  lemma GroupEnds(sec: seq<Octet>, p0: seq<StrPtr>, g: nat, i: nat, used: bool)
    requires InSection(sec, p0) && SortedByContent(sec, p0) && IsGroup(sec, p0, g, i, used)
    requires i < |p0| ==> StrOf(sec, p0, i) != StrOf(sec, p0, g)
    requires forall j, k {:trigger StrOf(sec, p0, j), StrOf(sec, p0, k)} :: 0 <= j < g <= k < |p0| ==>
        StrOf(sec, p0, j) != StrOf(sec, p0, k)
    ensures forall j, k {:trigger StrOf(sec, p0, j), StrOf(sec, p0, k)} :: 0 <= j < i <= k < |p0| ==>
        StrOf(sec, p0, j) != StrOf(sec, p0, k)
  {
    hide AtMost, Str;
    forall j, k {:trigger StrOf(sec, p0, j), StrOf(sec, p0, k)} | 0 <= j < i <= k < |p0|
      ensures StrOf(sec, p0, j) != StrOf(sec, p0, k)
    {
      if j >= g && StrOf(sec, p0, j) == StrOf(sec, p0, k) {
        AtMostTotal(StrOf(sec, p0, g), StrOf(sec, p0, i));
        assert false;
      }
    }
  }

  /** Emitting the string of a used group keeps the list ascending. */
  lemma EmitAscending(sec: seq<Octet>, p0: seq<StrPtr>, es: seq<seq<Octet>>, g: nat)
    requires InSection(sec, p0) && SortedByContent(sec, p0) && g < |p0| && Ascending(es)
    requires forall j {:trigger es[j]} :: 0 <= j < |es| ==> UsedBelow(sec, p0, g, es[j])
    requires forall j, k {:trigger StrOf(sec, p0, j), StrOf(sec, p0, k)} :: 0 <= j < g <= k < |p0| ==>
        StrOf(sec, p0, j) != StrOf(sec, p0, k)
    ensures Ascending(es + [StrOf(sec, p0, g)])
  {
    hide AtMost, Str;
    var s := StrOf(sec, p0, g);
    StrHasNoNul(sec, p0[g].off);
    forall j {:trigger es[j]} | 0 <= j < |es| ensures AtMost(es[j], s) && es[j] != s {
      assert UsedBelow(sec, p0, g, es[j]);
      var k :| 0 <= k < g && p0[k].used && StrOf(sec, p0, k) == es[j];
      assert AtMost(Str(sec, p0[k].off), Str(sec, p0[g].off));
    }
  }

  /** What the group adds to the used strings. */
  lemma UsedInGroup(sec: seq<Octet>, p0: seq<StrPtr>, g: nat, i: nat, used: bool, s: seq<Octet>)
    requires InSection(sec, p0) && IsGroup(sec, p0, g, i, used)
    ensures UsedBelow(sec, p0, i, s) <==> UsedBelow(sec, p0, g, s) || (used && s == StrOf(sec, p0, g))
  {
    hide Str;
    if UsedBelow(sec, p0, i, s) {
      var j :| 0 <= j < i && p0[j].used && StrOf(sec, p0, j) == s;
      assert j >= g ==> StrOf(sec, p0, j) == StrOf(sec, p0, g);
    }
    if used {
      var j :| g <= j < i && p0[j].used;
      assert StrOf(sec, p0, j) == StrOf(sec, p0, g);
    }
  }

  /** A group nobody uses is dropped. */
  lemma DropGroup(sec: seq<Octet>, p0: seq<StrPtr>, p: seq<StrPtr>, out: seq<Octet>, es: seq<seq<Octet>>, g: nat,
      i: nat)
    requires InSection(sec, p0) && SortedByContent(sec, p0) && EmittedTo(sec, p0, p, out, es, g)
        && IsGroup(sec, p0, g, i, false)
    requires i < |p0| ==> StrOf(sec, p0, i) != StrOf(sec, p0, g)
    ensures EmittedTo(sec, p0, p, out, es, i)
  {
    GroupEnds(sec, p0, g, i, false);
    GroupBytes(sec, p0, g, i);
    hide AtMost, Str, UsedBelow, Join, Ascending, Bytes, Relocated, SortedByContent, Len;
    forall k {:trigger p[k]} | 0 <= k < i && UsedBelow(sec, p0, i, StrOf(sec, p0, k)) ensures Relocated(sec, es, p[k]) {
      UsedInGroup(sec, p0, g, i, false, StrOf(sec, p0, k));
      if k >= g {
        NotUsedBefore(sec, p0, g);
      }
    }
    forall j {:trigger es[j]} | 0 <= j < |es| ensures UsedBelow(sec, p0, i, es[j]) {
      UsedInGroup(sec, p0, g, i, false, es[j]);
    }
  }

  lemma NotUsedBefore(sec: seq<Octet>, p0: seq<StrPtr>, g: nat)
    requires InSection(sec, p0) && g < |p0|
    requires forall j, k {:trigger StrOf(sec, p0, j), StrOf(sec, p0, k)} :: 0 <= j < g <= k < |p0| ==>
        StrOf(sec, p0, j) != StrOf(sec, p0, k)
    ensures !UsedBelow(sec, p0, g, StrOf(sec, p0, g))
  {
  }

  /** The string of a used group goes to the end of the output. */
  lemma KeepGroup(sec: seq<Octet>, p0: seq<StrPtr>, p: seq<StrPtr>, p': seq<StrPtr>, out: seq<Octet>,
      es: seq<seq<Octet>>, g: nat, i: nat)
    requires InSection(sec, p0) && SortedByContent(sec, p0) && EmittedTo(sec, p0, p, out, es, g)
        && IsGroup(sec, p0, g, i, true)
    requires i < |p0| ==> StrOf(sec, p0, i) != StrOf(sec, p0, g)
    requires NewOffsets(p, p', g, i, |out|)
    ensures EmittedTo(sec, p0, p', out + StrOf(sec, p0, g) + [0], es + [StrOf(sec, p0, g)], i)
  {
    hide AtMost, Str, UsedBelow, Join, Ascending, Bytes, SortedByContent, Len, Relocated;
    var s := StrOf(sec, p0, g);
    var es' := es + [s];
    GroupEnds(sec, p0, g, i, true);
    GroupBytes(sec, p0, g, i);
    EmitAscending(sec, p0, es, g);
    JoinMore(es, s);
    StrLength(sec, p0[g].off);
    KeepRelocated(sec, p0, p, p', out, es, g, i);
    forall j {:trigger es'[j]} | 0 <= j < |es'| ensures UsedBelow(sec, p0, i, es'[j]) {
      UsedInGroup(sec, p0, g, i, true, es'[j]);
    }
  }

  /** `strs.ptrs[j].new_off = new_off` for a whole group. */
  ghost predicate NewOffsets(p: seq<StrPtr>, p': seq<StrPtr>, g: nat, i: nat, newOff: nat) {
    |p'| == |p| && forall k {:trigger p'[k]} :: 0 <= k < |p| ==> p'[k] == if g <= k < i then p[k].(newOff := newOff)
        else p[k]
  }

  lemma KeepRelocated(sec: seq<Octet>, p0: seq<StrPtr>, p: seq<StrPtr>, p': seq<StrPtr>, out: seq<Octet>,
      es: seq<seq<Octet>>, g: nat, i: nat)
    requires InSection(sec, p0) && EmittedTo(sec, p0, p, out, es, g) && IsGroup(sec, p0, g, i, true)
    requires NewOffsets(p, p', g, i, |out|)
    ensures forall k {:trigger p'[k]} :: 0 <= k < i && UsedBelow(sec, p0, i, StrOf(sec, p0, k)) ==>
        Relocated(sec, es + [StrOf(sec, p0, g)], p'[k])
  {
    hide AtMost, Str, UsedBelow, Join, Ascending, Bytes, Len, Relocated;
    var s := StrOf(sec, p0, g);
    forall k {:trigger p'[k]} | 0 <= k < i && UsedBelow(sec, p0, i, StrOf(sec, p0, k))
      ensures Relocated(sec, es + [s], p'[k])
    {
      if k >= g {
        assert StrOf(sec, p0, k) == s;
        RelocatedHere(sec, es, s, p'[k]);
      } else {
        UsedInGroup(sec, p0, g, i, true, StrOf(sec, p0, k));
        RelocatedGrows(sec, es, s, p[k]);
      }
    }
  }

  lemma JoinMore(es: seq<seq<Octet>>, s: seq<Octet>)
    ensures Join(es + [s]) == Join(es) + s + [0]
  {
    assert (es + [s])[..|es|] == es;
  }

  lemma RelocatedHere(sec: seq<Octet>, es: seq<seq<Octet>>, s: seq<Octet>, ptr: StrPtr)
    requires ptr.off < |sec| && sec[|sec| - 1] == 0 && ptr.newOff == |Join(es)| && s == Str(sec, ptr.off)
    ensures Relocated(sec, es + [s], ptr)
  {
    assert (es + [s])[..|es|] == es;
  }

  lemma RelocatedGrows(sec: seq<Octet>, es: seq<seq<Octet>>, s: seq<Octet>, ptr: StrPtr)
    requires Relocated(sec, es, ptr)
    ensures Relocated(sec, es + [s], ptr)
  {
    var j :| 0 <= j < |es| && es[j] == Str(sec, ptr.off) && ptr.newOff == |Join(es[..j])|;
    assert (es + [s])[..j] == es[..j];
  }

  /** The strings emitted after a group. */
  function WithGroup(sec: seq<Octet>, p0: seq<StrPtr>, es: seq<seq<Octet>>, g: nat, used: bool): seq<seq<Octet>>
    requires InSection(sec, p0) && g < |p0|
  {
    if used then es + [StrOf(sec, p0, g)] else es
  }

  /** One finished group: its string is emitted if it is used, and all its pointers learn
      the new offset. */
  method EmitGroup(sec: seq<Octet>, ghost p0: seq<StrPtr>, ptrs: seq<StrPtr>, done: seq<Octet>,
      ghost es: seq<seq<Octet>>, g: nat, i: nat, used: bool)
    returns (p: seq<StrPtr>, out: seq<Octet>)
    requires InSection(sec, p0) && SortedByContent(sec, p0) && EmittedTo(sec, p0, ptrs, done, es, g)
        && IsGroup(sec, p0, g, i, used)
    requires i < |p0| ==> StrOf(sec, p0, i) != StrOf(sec, p0, g)
    ensures g < |p0| && EmittedTo(sec, p0, p, out, WithGroup(sec, p0, es, g, used), i)
  {
    hide AtMost, Str, UsedBelow, Join, Ascending, Bytes, SortedByContent, Len, Relocated;
    p, out := ptrs, done;
    if used {
      var newOff := |done|;
      out := done + Str(sec, ptrs[g].off) + [0];
      for j := g to i
        invariant NewOffsets(ptrs, p, g, j, |done|)
      {
        p := p[j := p[j].(newOff := newOff)];
      }
      KeepGroup(sec, p0, ptrs, p, done, es, g, i);
    } else {
      DropGroup(sec, p0, ptrs, done, es, g, i);
    }
  }

  /** The group loop of `btf_dedup_strings`, over pointers sorted by content. */
  method EmitGroups(sec: seq<Octet>, p0: seq<StrPtr>) returns (p: seq<StrPtr>, out: seq<Octet>)
    requires InSection(sec, p0) && SortedByContent(sec, p0) && p0 != []
    ensures exists es :: EmittedTo(sec, p0, p, out, es, |p0|)
  {
    hide AtMost, Str, UsedBelow, Join, Ascending, Bytes, SortedByContent, Len, Relocated, EmittedTo, SameKeys;
    p, out := p0, [];
    ghost var es: seq<seq<Octet>> := [];
    var grpIdx := 0;
    var grpUsed := p[0].used;
    NothingEmitted(sec, p0);
    GroupBegins(sec, p0, 0);
    for i := 1 to |p0| + 1
      invariant i <= |p0| ==> EmittedTo(sec, p0, p, out, es, grpIdx) && IsGroup(sec, p0, grpIdx, i, grpUsed)
      invariant i > |p0| ==> EmittedTo(sec, p0, p, out, es, |p0|)
    {
      EmittedKeys(sec, p0, p, out, es, grpIdx);
      if i < |p0| && Str(sec, p[i].off) == Str(sec, p[grpIdx].off) {
        GroupExtends(sec, p0, grpIdx, i, grpUsed);
        grpUsed := grpUsed || p[i].used;
        continue;
      }
      p, out := EmitGroup(sec, p0, p, out, es, grpIdx, i, grpUsed);
      es := WithGroup(sec, p0, es, grpIdx, grpUsed);
      EmittedKeys(sec, p0, p, out, es, i);
      if i < |p0| {
        GroupBegins(sec, p0, i);
        grpIdx := i;
        grpUsed := p[i].used;
      }
    }
  }

  lemma GroupBegins(sec: seq<Octet>, p0: seq<StrPtr>, i: nat)
    requires InSection(sec, p0) && i < |p0|
    ensures IsGroup(sec, p0, i, i + 1, p0[i].used)
  {
  }

  lemma GroupExtends(sec: seq<Octet>, p0: seq<StrPtr>, g: nat, i: nat, used: bool)
    requires InSection(sec, p0) && i < |p0| && IsGroup(sec, p0, g, i, used) && StrOf(sec, p0, i) == StrOf(sec, p0, g)
    ensures IsGroup(sec, p0, g, i + 1, used || p0[i].used)
  {
    hide Str;
    assert (exists k :: g <= k < i + 1 && p0[k].used) <==> (exists k :: g <= k < i && p0[k].used) || p0[i].used;
  }

  lemma NothingEmitted(sec: seq<Octet>, p0: seq<StrPtr>)
    requires InSection(sec, p0)
    ensures EmittedTo(sec, p0, p0, [], [], 0)
  {
  }

  lemma EmittedKeys(sec: seq<Octet>, p0: seq<StrPtr>, p: seq<StrPtr>, out: seq<Octet>, es: seq<seq<Octet>>, n: nat)
    requires EmittedTo(sec, p0, p, out, es, n)
    ensures |p| == |p0| && forall k {:trigger p[k]} :: 0 <= k < |p| ==> p[k].off == p0[k].off && p[k].used == p0[k].used
  {
    hide Str, UsedBelow, Join, Ascending, Bytes, Relocated;
  }
}
