/** The info sections of .BTF.ext (btf.c): a record size, then blocks of records, one block for
    each ELF section. What setup accepts is walked later without any further checks. */
module BtfExts {
  import opened Basics
  import opened Words

  const EINVAL: int := 22
  const ENOENT: int := 2

  /** `sizeof(struct btf_ext_info_sec)` and `sizeof(struct bpf_insn)` */
  const SEC_HDRLEN: nat := 8
  const INSN_SIZE: nat := 8

  /** A 32-bit word, little-endian. */
  function U32At(data: seq<Octet>, p: nat): (w: U32)
    requires p + 4 <= |data|
  {
    var (a: nat, b: nat, c: nat, d: nat) := (data[p], data[p + 1], data[p + 2], data[p + 3]);
    a + 0x100 * b + 0x1_0000 * c + 0x100_0000 * d
  }

  /** The four bytes of a word. */
  function Bytes32(w: U32): (r: seq<Octet>)
    ensures |r| == 4
  {
    [w % 0x100, w / 0x100 % 0x100, w / 0x100 / 0x100 % 0x100, w / 0x100 / 0x100 / 0x100 % 0x100]
  }

  lemma BytesRead(w: U32)
    ensures U32At(Bytes32(w), 0) == w
  {
    var x: nat := w / 0x100;
    var y: nat := x / 0x100;
    var z: nat := y / 0x100;
    assert w == 0x100 * x + w % 0x100 && x == 0x100 * y + x % 0x100 && y == 0x100 * z + y % 0x100;
    assert z < 0x100;
    FourBytes(Bytes32(w), w % 0x100, x % 0x100, y % 0x100, z);
  }

  lemma FourBytes(r: seq<Octet>, a: nat, b: nat, c: nat, d: nat)
    requires a < 0x100 && b < 0x100 && c < 0x100 && d < 0x100 && r == [a, b, c, d]
    ensures U32At(r, 0) == a + 0x100 * b + 0x1_0000 * c + 0x100_0000 * d
  {
  }

  function Store32(data: seq<Octet>, p: nat, w: U32): (r: seq<Octet>)
    requires p + 4 <= |data|
    ensures |r| == |data|
  {
    data[..p] + Bytes32(w) + data[p + 4..]
  }

  // ---------------------------------------------------------------- blocks

  function NumInfo(data: seq<Octet>, p: nat): U32
    requires p + SEC_HDRLEN <= |data|
  {
    U32At(data, p + 4)
  }

  function Size(rec: nat, num: nat): nat { num * rec }

  /** The bytes from `p` to `end` are blocks of records, none of them empty, up to the last byte. */
  ghost predicate Tiled(data: seq<Octet>, p: nat, end: nat, rec: nat)
    decreases end - p
  {
    end <= |data| &&
    (p == end ||
     (p + SEC_HDRLEN <= end && NumInfo(data, p) > 0 && p + SEC_HDRLEN + Size(rec, NumInfo(data, p)) <= end
      && Tiled(data, p + SEC_HDRLEN + Size(rec, NumInfo(data, p)), end, rec)))
  }

  /** Where the blocks begin. */
  ghost function Blocks(data: seq<Octet>, p: nat, end: nat, rec: nat): seq<nat>
    requires p <= end && Tiled(data, p, end, rec)
    decreases end - p
  {
    if p == end then [] else [p] + Blocks(data, p + SEC_HDRLEN + Size(rec, NumInfo(data, p)), end, rec)
  }

  lemma {:induction false} BlocksInside(data: seq<Octet>, p: nat, end: nat, rec: nat)
    requires p <= end && Tiled(data, p, end, rec)
    ensures forall k :: 0 <= k < |Blocks(data, p, end, rec)| ==>
      var q := Blocks(data, p, end, rec)[k];
      p <= q && q + SEC_HDRLEN <= end <= |data| && NumInfo(data, q) > 0
          && q + SEC_HDRLEN + Size(rec, NumInfo(data, q)) <= end
    decreases end - p
  {
    hide Size, NumInfo;
    if p < end {
      BlocksInside(data, p + SEC_HDRLEN + Size(rec, NumInfo(data, p)), end, rec);
    }
  }

  /** Blocks follow each other without gaps. */
  lemma {:induction false} BlocksAdjacent(data: seq<Octet>, p: nat, end: nat, rec: nat, k: nat)
    requires p <= end && Tiled(data, p, end, rec) && k < |Blocks(data, p, end, rec)|
    ensures var bs := Blocks(data, p, end, rec);
      bs[k] + SEC_HDRLEN <= |data| && bs[0] == p &&
      bs[k] + SEC_HDRLEN + Size(rec, NumInfo(data, bs[k])) == if k + 1 < |bs| then bs[k + 1] else end
    decreases end - p
  {
    hide Size, NumInfo;
    var next := p + SEC_HDRLEN + Size(rec, NumInfo(data, p));
    if next < end {
      BlocksAdjacent(data, next, end, rec, if k > 0 then k - 1 else 0);
    }
  }

  /** `struct btf_ext_info` */
  datatype Info = Info(start: nat, recSize: nat, len: nat)

  /** The section that setup has accepted. */
  ghost predicate Accepted(data: seq<Octet>, i: Info) {
    i.len == 0 || (i.recSize > 0 && Tiled(data, i.start, i.start + i.len, i.recSize))
  }

  /** The blocks of an accepted section. */
  ghost function BlocksOf(data: seq<Octet>, i: Info): seq<nat>
    requires Accepted(data, i)
  {
    if i.len == 0 then [] else Blocks(data, i.start, i.start + i.len, i.recSize)
  }

  /** What setup checks of a section at `off` behind the header. */
  ghost predicate Sound(data: seq<Octet>, hdrLen: nat, off: nat, len: nat, minRecSize: nat) {
    var start := hdrLen + off;
    && off % 4 == 0 && start + len <= |data| && len > 4
    && U32At(data, start) >= minRecSize && U32At(data, start) % 4 == 0
    && Tiled(data, start + 4, start + len, U32At(data, start))
  }

  /** `btf_ext_setup_info` */
  method SetupInfo(data: seq<Octet>, hdrLen: U32, off: U32, len: U32, minRecSize: nat) returns (err: int, info: Info)
    requires minRecSize > 0
    ensures err == 0 || err == -EINVAL
    ensures err == 0 <==> len == 0 || Sound(data, hdrLen, off, len, minRecSize)
    ensures err == 0 ==> Accepted(data, info)
    ensures err == 0 && len > 0 ==> info == Info(hdrLen + off + 4, U32At(data, hdrLen + off), len - 4)
  {
    hide Size, U32At;
    info := Info(0, 0, 0);
    if len == 0 {
      return 0, info;
    }
    if off % 4 != 0 {
      return -EINVAL, info;
    }
    var start := hdrLen + off;
    if |data| < start + len {
      return -EINVAL, info;
    }
    if len < 4 {
      return -EINVAL, info;
    }
    var recordSize := U32At(data, start);
    if recordSize < minRecSize || recordSize % 4 != 0 {
      return -EINVAL, info;
    }
    var sinfo, infoLeft := start + 4, len - 4;
    if infoLeft == 0 {
      return -EINVAL, info;
    }
    while infoLeft != 0
      invariant sinfo + infoLeft == start + len && infoLeft >= 0
      invariant Tiled(data, start + 4, start + len, recordSize) <==> Tiled(data, sinfo, start + len, recordSize)
      decreases infoLeft
    {
      if infoLeft < SEC_HDRLEN {
        return -EINVAL, info;
      }
      var numRecords := NumInfo(data, sinfo);
      if numRecords == 0 {
        return -EINVAL, info;
      }
      var totalRecordSize := SEC_HDRLEN + Size(recordSize, numRecords);
      if infoLeft < totalRecordSize {
        return -EINVAL, info;
      }
      infoLeft := infoLeft - totalRecordSize;
      sinfo := sinfo + totalRecordSize;
    }
    return 0, Info(start + 4, recordSize, len - 4);
  }

  /** `for_each_btf_ext_sec` over a whole section: it visits the blocks and ends at the last byte. */
  method ForEachSec(data: seq<Octet>, i: Info) returns (secs: seq<nat>, last: nat)
    requires Accepted(data, i)
    ensures secs == BlocksOf(data, i)
    ensures last == i.start + i.len
  {
    hide Size, U32At;
    var sec: nat := i.start;
    secs := [];
    while sec < i.start + i.len
      invariant sec <= i.start + i.len && (i.len == 0 ==> secs == [])
      invariant i.len > 0 ==> Tiled(data, sec, i.start + i.len, i.recSize)
      invariant i.len > 0 ==>
          secs + Blocks(data, sec, i.start + i.len, i.recSize) ==
          Blocks(data, i.start, i.start + i.len, i.recSize)
      decreases i.start + i.len - sec
    {
      secs := secs + [sec];
      sec := sec + SEC_HDRLEN + Size(i.recSize, NumInfo(data, sec));
    }
    last := sec;
  }

  // ---------------------------------------------------------------- relocation

  ghost predicate InData(data: seq<Octet>, bs: seq<nat>) { forall k :: 0 <= k < |bs| ==> bs[k] + SEC_HDRLEN <= |data| }

  ghost predicate FirstOf(data: seq<Octet>, name: nat -> string, secName: string, bs: seq<nat>, k: int)
    requires InData(data, bs)
  {
    && 0 <= k < |bs| && name(U32At(data, bs[k])) == secName
    && forall j :: 0 <= j < k ==> name(U32At(data, bs[j])) != secName
  }

  /** The first block of the wanted ELF section. */
  ghost function Find(data: seq<Octet>, name: nat -> string, secName: string, bs: seq<nat>): Option<nat>
    requires InData(data, bs)
  {
    if bs == [] then None
    else if name(U32At(data, bs[0])) == secName then Some(bs[0])
    else Find(data, name, secName, bs[1..])
  }

  lemma {:induction false} FindMeaning(data: seq<Octet>, name: nat -> string, secName: string, bs: seq<nat>)
    requires InData(data, bs)
    ensures Find(data, name, secName, bs).None? <==> forall k :: 0 <= k < |bs| ==> name(U32At(data, bs[k])) != secName
    ensures Find(data, name, secName, bs).Some? ==>
        exists k :: FirstOf(data, name, secName, bs, k) && bs[k] == Find(data, name, secName, bs).value
  {
    hide U32At;
    if bs != [] && name(U32At(data, bs[0])) != secName {
      FindMeaning(data, name, secName, bs[1..]);
      if Find(data, name, secName, bs).Some? {
        var k :| FirstOf(data, name, secName, bs[1..], k) && bs[1..][k] == Find(data, name, secName, bs).value;
        assert bs[k + 1] == bs[1..][k];
        forall j | 0 <= j < k + 1 ensures name(U32At(data, bs[j])) != secName {
          if j > 0 { assert bs[1..][j - 1] == bs[j]; }
        }
        assert FirstOf(data, name, secName, bs, k + 1);
      }
      assert forall k :: 1 <= k < |bs| ==> bs[k] == bs[1..][k - 1];
    } else if bs != [] {
      assert FirstOf(data, name, secName, bs, 0);
    }
  }

  /** Where record `k` begins. */
  function Slot(rec: nat, k: nat): nat { k * rec }

  lemma SlotOrder(rec: nat, j: nat, k: nat)
    requires j < k
    ensures Slot(rec, j) + rec <= Slot(rec, k)
  {
    Distribute(k - j, j, rec);
    AtLeastOnce(k - j, rec);
  }

  /** Record `k` of a block. */
  function Record(block: seq<Octet>, rec: nat, k: nat): seq<Octet>
    requires Slot(rec, k) + rec <= |block|
  {
    block[Slot(rec, k)..Slot(rec, k) + rec]
  }

  /** A record whose byte offset is turned into an instruction index and moved. */
  function Moved(r: seq<Octet>, insnsCnt: U32): seq<Octet>
    requires |r| >= 4
  {
    Store32(r, 0, Add32(U32At(r, 0) / INSN_SIZE, insnsCnt))
  }

  lemma MovedMeaning(r: seq<Octet>, insnsCnt: U32)
    requires |r| >= 4
    ensures |Moved(r, insnsCnt)| == |r|
    ensures U32At(Moved(r, insnsCnt), 0) == (U32At(r, 0) / INSN_SIZE + insnsCnt) % TWO_32
    ensures Moved(r, insnsCnt)[4..] == r[4..]
  {
    hide U32At;
    var w := Add32(U32At(r, 0) / INSN_SIZE, insnsCnt);
    BytesRead(w);
    WordInPlace(Bytes32(w), r[4..]);
    assert r[..0] == [];
    assert Moved(r, insnsCnt) == Bytes32(w) + r[4..];
  }

  lemma WordInPlace(a: seq<Octet>, b: seq<Octet>)
    requires |a| == 4
    ensures U32At(a + b, 0) == U32At(a, 0)
  {
  }

  /** The first `n` records of `r` are those of the block, moved; the others are untouched. */
  ghost predicate MovedUpTo(block: seq<Octet>, rec: nat, num: nat, insnsCnt: U32, r: seq<Octet>, n: nat) {
    && rec >= 4 && |r| == |block| == Size(rec, num) && n <= num
    && forall k :: 0 <= k < num ==>
         && Slot(rec, k) + rec <= |block|
         && Record(r, rec, k) == if k < n then Moved(Record(block, rec, k), insnsCnt) else Record(block, rec, k)
  }

  lemma NoneMoved(block: seq<Octet>, rec: nat, num: nat, insnsCnt: U32)
    requires rec >= 4 && |block| == Size(rec, num)
    ensures MovedUpTo(block, rec, num, insnsCnt, block, 0)
  {
    forall k | 0 <= k < num ensures Slot(rec, k) + rec <= |block| {
      SlotOrder(rec, k, num);
    }
  }

  lemma MoveOne(block: seq<Octet>, rec: nat, num: nat, insnsCnt: U32, r: seq<Octet>, n: nat)
    requires MovedUpTo(block, rec, num, insnsCnt, r, n) && n < num
    ensures Slot(rec, n) + 4 <= |r|
    ensures MovedUpTo(block, rec, num, insnsCnt,
        Store32(r, Slot(rec, n), Add32(U32At(r, Slot(rec, n)) / INSN_SIZE, insnsCnt)), n + 1)
  {
    hide U32At, Bytes32, Slot, Store32, Size, Add32;
    var p := Slot(rec, n);
    var w := Add32(U32At(r, p) / INSN_SIZE, insnsCnt);
    var r' := Store32(r, p, w);
    WordOfRecord(r, rec, n);
    forall k | 0 <= k < num
      ensures Record(r', rec, k) == if k < n + 1 then Moved(Record(block, rec, k), insnsCnt) else Record(block, rec, k)
    {
      if k < n {
        SlotOrder(rec, k, n);
        StoreElsewhere(r, p, w, Slot(rec, k), Slot(rec, k) + rec);
      } else if k > n {
        SlotOrder(rec, n, k);
        StoreElsewhere(r, p, w, Slot(rec, k), Slot(rec, k) + rec);
      } else {
        StoreInside(r, p, rec, w);
      }
    }
  }

  lemma StoreInside(r: seq<Octet>, p: nat, n: nat, w: U32)
    requires 4 <= n && p + n <= |r|
    ensures Store32(r, p, w)[p..p + n] == Store32(r[p..p + n], 0, w)
  {
    hide Bytes32;
    assert r[p..p + n][4..] == r[p + 4..p + n];
    assert Store32(r, p, w)[p..p + n] == Bytes32(w) + r[p + 4..p + n];
    assert r[p..p + n][..0] == [];
  }

  lemma StoreElsewhere(r: seq<Octet>, p: nat, w: U32, a: nat, b: nat)
    requires p + 4 <= |r| && a <= b <= |r| && (b <= p || a >= p + 4)
    ensures Store32(r, p, w)[a..b] == r[a..b]
  {
    hide Bytes32;
  }

  lemma WordOfRecord(r: seq<Octet>, rec: nat, n: nat)
    requires rec >= 4 && Slot(rec, n) + rec <= |r|
    ensures U32At(Record(r, rec, n), 0) == U32At(r, Slot(rec, n))
  {
    hide Slot;
  }

  lemma BehindOld(old_: seq<Octet>, r: seq<Octet>, p: nat, w: U32)
    requires p + 4 <= |r|
    ensures U32At(old_ + r, |old_| + p) == U32At(r, p)
    ensures Store32(old_ + r, |old_| + p, w) == old_ + Store32(r, p, w)
  {
    hide Bytes32;
    assert (old_ + r)[|old_| + p + 4..] == r[p + 4..];
    assert (old_ + r)[..|old_| + p] == old_ + r[..p];
  }

  /** What relocation appends: the records of the block at `q`, every one moved. */
  ghost predicate Appended(data: seq<Octet>, q: nat, rec: nat, insnsCnt: U32, r: seq<Octet>) {
    && q + SEC_HDRLEN <= |data| && q + SEC_HDRLEN + Size(rec, NumInfo(data, q)) <= |data|
    && var block := data[q + SEC_HDRLEN..q + SEC_HDRLEN + Size(rec, NumInfo(data, q))];
       MovedUpTo(block, rec, NumInfo(data, q), insnsCnt, r, NumInfo(data, q))
  }

  /** `btf_ext_reloc_info` appends the first block of the wanted ELF section, in order. An empty
      section has none. */
  method RelocInfo(data: seq<Octet>, i: Info, name: nat -> string, secName: string, insnsCnt: U32, info: seq<Octet>,
      cnt: U32)
    returns (err: int, info': seq<Octet>, cnt': nat)
    requires Accepted(data, i) && (i.len > 0 ==> i.recSize >= 4)
    requires |info| == Size(i.recSize, cnt) && |info| + i.len < TWO_32
    ensures InData(data, BlocksOf(data, i))
    ensures match Find(data, name, secName, BlocksOf(data, i))
      case None => err == -ENOENT && info' == info && cnt' == cnt
      case Some(q) => err == 0 && info <= info' && Appended(data, q, i.recSize, insnsCnt, info'[|info|..])
                      && q + SEC_HDRLEN <= |data| && cnt' == cnt + NumInfo(data, q) && |info'| == Size(i.recSize, cnt')
  {
    hide Size, U32At, NumInfo, Appended;
    var end := i.start + i.len;
    if i.len > 0 {
      BlocksInside(data, i.start, end, i.recSize);
    }
    var sinfo := i.start;
    while sinfo < end
      invariant i.start <= sinfo <= end && (i.len > 0 ==> Tiled(data, sinfo, end, i.recSize))
      invariant i.len > 0 ==> InData(data, Blocks(data, sinfo, end, i.recSize))
      invariant i.len > 0 ==>
          Find(data, name, secName, Blocks(data, sinfo, end, i.recSize)) ==
          Find(data, name, secName, Blocks(data, i.start, end, i.recSize))
      decreases end - sinfo
    {
      BlocksInside(data, sinfo, end, i.recSize);
      var num := NumInfo(data, sinfo);
      var recordsLen := Size(i.recSize, num);
      if name(U32At(data, sinfo)) == secName {
        info' := AppendBlock(data, sinfo, i.recSize, insnsCnt, info);
        SizeAdds(i.recSize, cnt, num);
        return 0, info', cnt + num;
      }
      ghost var bs := Blocks(data, sinfo, end, i.recSize);
      sinfo := sinfo + SEC_HDRLEN + recordsLen;
      assert bs[1..] == Blocks(data, sinfo, end, i.recSize);
      BlocksInside(data, sinfo, end, i.recSize);
    }
    return -ENOENT, info, cnt;
  }

  lemma SizeAdds(rec: nat, a: nat, b: nat)
    ensures Size(rec, a) + Size(rec, b) == Size(rec, a + b)
  {
    Distribute(a, b, rec);
  }

  /** The copy, and the loop that moves the instruction offsets. */
  method AppendBlock(data: seq<Octet>, q: nat, rec: nat, insnsCnt: U32, info: seq<Octet>) returns (info': seq<Octet>)
    requires rec >= 4 && q + SEC_HDRLEN <= |data| && q + SEC_HDRLEN + Size(rec, NumInfo(data, q)) <= |data|
    ensures info <= info' && |info'| == |info| + Size(rec, NumInfo(data, q))
    ensures Appended(data, q, rec, insnsCnt, info'[|info|..])
  {
    hide Size, U32At, NumInfo, Bytes32, MovedUpTo, Store32, Slot;
    var num := NumInfo(data, q);
    var block := data[q + SEC_HDRLEN..q + SEC_HDRLEN + Size(rec, num)];
    info' := info + block;
    ghost var r := block;
    NoneMoved(block, rec, num, insnsCnt);
    for k := 0 to num
      invariant info' == info + r && |r| == Size(rec, num) && MovedUpTo(block, rec, num, insnsCnt, r, k)
    {
      MoveOne(block, rec, num, insnsCnt, r, k);
      var p := |info| + Slot(rec, k);
      BehindOld(info, r, Slot(rec, k), Add32(U32At(r, Slot(rec, k)) / INSN_SIZE, insnsCnt));
      info' := Store32(info', p, Add32(U32At(info', p) / INSN_SIZE, insnsCnt));
      r := Store32(r, Slot(rec, k), Add32(U32At(r, Slot(rec, k)) / INSN_SIZE, insnsCnt));
    }
    assert info'[|info|..] == r;
  }
}
