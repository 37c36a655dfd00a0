/** CO-RE field specs (libbpf.c): parsing the access string of a relocation against the
    program's own types, and finding the same field in the types of another kernel.

    A spec is kept twice: as the raw indices, one for every level of nesting, and as the
    accessors that matter, which are named fields and array indices. Parsing computes the
    accessors from the raw indices. Matching goes the other way: it looks for a field of
    the same name and pushes raw indices as it descends into anonymous members. */
module CoreSpecs {
  import opened Basics
  import opened Words
  import opened BtfTypes
  import opened TypeGraph
  import opened BtfLookup

  /** `BPF_CORE_SPEC_MAX_LEN` */
  const MAX_LEN: nat := 64

  datatype Accessor =
    | Index(ty: Id, idx: nat)
    | Field(ty: Id, idx: nat, name: string)

  /** `BTF_MEMBER_BIT_OFFSET`: with the kind flag the upper byte is the bitfield width. */
  function MemberOffset(b: Btf, i: Id, k: nat): nat
    requires i < |b.types| && k < |MembersOf(b, i)|
  {
    var m := MembersOf(b, i)[k];
    if b.types[i].info.kflag then m.offset % 0x100_0000 else m.offset
  }

  function MemberName(b: Btf, i: Id, k: nat): string
    requires i < |b.types| && k < |MembersOf(b, i)|
  {
    Name(b, MembersOf(b, i)[k].name)
  }

  // ---------------------------------------------------------------- parsing

  /** Where a list of raw indices leads: the type reached, the accessors passed, and the
      bit offset, in unbounded arithmetic. */
  datatype Walked = Walked(id: Id, accs: seq<Accessor>, off: nat) | Failed(err: int)

  function Then(w: Walked, v: Walked): Walked
    requires w.Walked?
  {
    if v.Failed? then v else Walked(v.id, w.accs + v.accs, w.off + v.off)
  }

  /** An element of an array of `i`, or of the object that the relocation starts from. */
  ghost function Element(b: Btf, i: Id, k: nat): Walked {
    var size := ResolvedSize(b, i);
    if size < 0 then Failed(size) else Walked(i, [Index(i, k)], Times(k, size) * 8)
  }

  /** One raw index. */
  ghost function Step(b: Btf, id: Id, k: nat): (w: Walked)
    requires WfBtf(b) && id < |b.types|
    ensures w.Walked? ==> w.id < |b.types|
  {
    var i := SkipId(b, id);
    if Composite(b, i) then
      if k >= |MembersOf(b, i)| then Failed(-EINVAL)
      else
        var m := MembersOf(b, i)[k];
        if m.name == 0 then Walked(m.ty, [], MemberOffset(b, i, k))
        else if Name(b, m.name) == [] then Failed(-EINVAL)
        else Walked(m.ty, [Field(i, k, Name(b, m.name))], MemberOffset(b, i, k))
    else if IsArray(b, i) && b.types[i].data.ArrayData? then
      if k >= b.types[i].data.nelems then Failed(-EINVAL)
      else Element(b, SkipId(b, b.types[i].data.elem), k)
    else Failed(-EINVAL)
  }

  /** An index selects a member of a struct or union at its bit offset, and names it if it has a
      name; or an element of an array, as many times the size of one behind its start. */
  lemma StepLaws(b: Btf, id: Id, k: nat)
    requires WfBtf(b) && id < |b.types|
    ensures var (i, w) := (SkipId(b, id), Step(b, id, k));
      match b.types[i].info.kind
      case STRUCT | UNION =>
        var ms := MembersOf(b, i);
        && (b.types[i].data.Members? ==> ms == b.types[i].data.members)
        && (w.Walked? <==> k < |ms| && (ms[k].name == 0 || b.str(ms[k].name) != ""))
        && (w.Walked? ==>
             w.id == ms[k].ty && w.off == MemberOffset(b, i, k)
             && w.accs == if ms[k].name == 0 then [] else [Field(i, k, b.str(ms[k].name))])
      case ARRAY =>
        w.Walked? ==>
          && b.types[i].data.ArrayData? && k < b.types[i].data.nelems && b.types[i].data.elem < |b.types|
          && w.id == SkipId(b, b.types[i].data.elem) && w.accs == [Index(w.id, k)]
          && TrueSize(b, w.id, MAX_RESOLVE_DEPTH).Some?
          && w.off == k * TrueSize(b, w.id, MAX_RESOLVE_DEPTH).value * 8
      case _ => w.Failed?
  {
    var i := SkipId(b, id);
    if IsArray(b, i) {
      ArrayElements(b, i);
      ResolvedExact(b, SkipId(b, b.types[i].data.elem));
    }
    hide WfBtf, TrueSize;
  }

  ghost function Walk(b: Btf, id: Id, raw: seq<nat>): (w: Walked)
    requires WfBtf(b) && id < |b.types|
    ensures w.Walked? ==> w.id < |b.types|
    decreases |raw|
  {
    if raw == [] then Walked(id, [], 0)
    else
      var w := Step(b, id, raw[0]);
      if w.Failed? then w else Then(w, Walk(b, w.id, raw[1..]))
  }

  /** The first index counts whole objects of the root type. */
  ghost function ParseSpec(b: Btf, id: Id, raw: seq<nat>): (w: Walked)
    requires WfBtf(b) && id < |b.types|
    ensures w.Walked? ==> w.id < |b.types|
  {
    if raw == [] then Failed(-EINVAL)
    else
      var w := Element(b, SkipId(b, id), raw[0]);
      if w.Failed? then w else Then(w, Walk(b, w.id, raw[1..]))
  }

  lemma {:induction false} WalkAppend(b: Btf, id: Id, p: seq<nat>, q: seq<nat>)
    requires WfBtf(b) && id < |b.types|
    ensures var w := Walk(b, id, p);
            Walk(b, id, p + q) == if w.Failed? then w else Then(w, Walk(b, w.id, q))
    decreases |p|
  {
    hide WfBtf, Step;
    if p == [] {
      assert p + q == q;
      assert forall w: Walked :: w.Walked? ==> [] + w.accs == w.accs;
    } else {
      var w := Step(b, id, p[0]);
      assert (p + q)[0] == p[0] && (p + q)[1..] == p[1..] + q;
      if w.Walked? {
        WalkAppend(b, w.id, p[1..], q);
        var v := Walk(b, w.id, p[1..]);
        if v.Walked? {
          var u := Walk(b, v.id, q);
          if u.Walked? {
            assert (w.accs + v.accs) + u.accs == w.accs + (v.accs + u.accs);
          }
        }
      }
    }
  }

  // ---------------------------------------------------------------- compatible fields

  const UNDERSCORE: char := '_'

  /** `bpf_core_is_flavor_sep`: X___Y, with X and Y other characters. */
  predicate IsFlavorSep(s: string, i: nat) {
    i + 4 < |s| && s[i] != UNDERSCORE && s[i + 1] == s[i + 2] == s[i + 3] == UNDERSCORE && s[i + 4] != UNDERSCORE
  }

  /** `bpf_core_essential_name_len`: up to the last flavor separator, if there is one. */
  function EssentialLen(s: string, i: int): (n: nat)
    requires i <= |s| - 5
    ensures n <= |s|
    decreases i + 1
  {
    if i < 0 then |s| else if IsFlavorSep(s, i) then i + 1 else EssentialLen(s, i - 1)
  }

  lemma {:induction false} EssentialLenMeaning(s: string, i: int)
    requires i <= |s| - 5
    ensures var n := EssentialLen(s, i);
      || (n == |s| && forall k :: 0 <= k <= i ==> !IsFlavorSep(s, k))
      || (1 <= n <= i + 1 && IsFlavorSep(s, n - 1) && forall k :: n <= k <= i ==> !IsFlavorSep(s, k))
    decreases i + 1
  {
    if i >= 0 && !IsFlavorSep(s, i) {
      EssentialLenMeaning(s, i - 1);
    }
  }

  method EssentialNameLen(s: string) returns (n: nat)
    ensures n == EssentialLen(s, |s| - 5)
  {
    var i := |s| - 5;
    while i >= 0
      invariant i <= |s| - 5 && EssentialLen(s, i) == EssentialLen(s, |s| - 5)
    {
      if IsFlavorSep(s, i) {
        return i + 1;
      }
      i := i - 1;
    }
    n := |s|;
  }

  function Essential(s: string): string { s[..EssentialLen(s, |s| - 5)] }

  /** `btf_int_offset` */
  function IntOffset(d: Desc): nat {
    if d.data.IntData? then d.data.encoding / 0x1_0000 % 0x100 else 0
  }

  /** What two types say about each other behind qualifiers and typedefs; None defers to
      the elements of two arrays. */
  function HeadsCompatible(l: Btf, i: Id, t: Btf, j: Id): Option<bool>
    requires i < |l.types| && j < |t.types|
  {
    var (d, e) := (l.types[i], t.types[j]);
    if Composite(l, i) && Composite(t, j) then Some(true)
    else if d.info.kind != e.info.kind then Some(false)
    else if d.info.kind == PTR then Some(true)
    else if d.info.kind == FWD || d.info.kind == ENUM then
      var (m, n) := (Essential(Name(l, d.name)), Essential(Name(t, e.name)));
      Some(m == [] || n == [] || m == n)
    else if d.info.kind == INT then Some(IntOffset(d) == 0 && IntOffset(e) == 0)
    else if d.info.kind == ARRAY then None
    else Some(false)
  }

  /** The types may stand for each other: both structs or unions in any mix, or of one kind;
      tags agree without their flavors or one is missing; integers are no bitfields; array
      elements are compatible in turn. */
  ghost predicate Compatible(l: Btf, li: Id, t: Btf, ti: Id)
    requires WfBtf(l) && WfBtf(t) && li < |l.types| && ti < |t.types|
    decreases RankOf(l)[li]
  {
    var (i, j) := (SkipId(l, li), SkipId(t, ti));
    var heads := HeadsCompatible(l, i, t, j);
    if heads.Some? then heads.value
    else
      ArrayElements(l, i);
      ArrayElements(t, j);
      Compatible(l, l.types[i].data.elem, t, t.types[j].data.elem)
  }

  /** `bpf_core_fields_are_compat` */
  method FieldsAreCompat(l: Btf, localId: Id, t: Btf, targId: Id) returns (r: bool)
    requires WfBtf(l) && WfBtf(t) && localId < |l.types| && targId < |t.types|
    ensures r == Compatible(l, localId, t, targId)
  {
    hide WfBtf, HeadsCompatible, SkipId, RankOf;
    var li: Id, ti: Id := localId, targId;
    while true
      invariant li < |l.types| && ti < |t.types|
      invariant Compatible(l, li, t, ti) == Compatible(l, localId, t, targId)
      decreases RankOf(l)[li]
    {
      var i := SkipModsAndTypedefs(l, li);
      var j := SkipModsAndTypedefs(t, ti);
      var heads := HeadsAreCompat(l, i, t, j);
      if heads.Some? {
        return heads.value;
      }
      DeferredArrays(l, i, t, j);
      ArrayElements(l, i);
      ArrayElements(t, j);
      li, ti := l.types[i].data.elem, t.types[j].data.elem;
    }
  }

  lemma DeferredArrays(l: Btf, i: Id, t: Btf, j: Id)
    requires i < |l.types| && j < |t.types| && HeadsCompatible(l, i, t, j).None?
    ensures IsArray(l, i) && IsArray(t, j)
  {
  }

  /** The cases of `bpf_core_fields_are_compat` up to its jump back for arrays. */
  method HeadsAreCompat(l: Btf, i: Id, t: Btf, j: Id) returns (r: Option<bool>)
    requires i < |l.types| && j < |t.types|
    ensures r == HeadsCompatible(l, i, t, j)
  {
    hide EssentialLen;
    var d, e := l.types[i], t.types[j];
    if Composite(l, i) && Composite(t, j) {
      return Some(true);
    }
    if d.info.kind != e.info.kind {
      return Some(false);
    }
    match d.info.kind {
      case PTR => return Some(true);
      case FWD | ENUM =>
        var m, n := Name(l, d.name), Name(t, e.name);
        var localLen := EssentialNameLen(m);
        var targLen := EssentialNameLen(n);
        return Some(localLen == 0 || targLen == 0 || (localLen == targLen && m[..localLen] == n[..targLen]));
      case INT => return Some(IntOffset(d) == 0 && IntOffset(e) == 0);
      case ARRAY => return None;
      case _ => return Some(false);
    }
  }

  // ---------------------------------------------------------------- which types are compatible

  /** The type of the elements, however many arrays are nested, and how many there are. */
  ghost function ElementOf(b: Btf, i: Id): (r: (Id, nat))
    requires WfBtf(b) && i < |b.types|
    ensures r.0 < |b.types|
    decreases RankOf(b)[i]
  {
    var j := SkipId(b, i);
    if IsArray(b, j) then
      ArrayElements(b, j);
      var r := ElementOf(b, b.types[j].data.elem);
      (r.0, r.1 + 1)
    else (j, 0)
  }

  /** Exactly these types are compatible: as many arrays deep, two structs or unions in any mix,
      two pointers, two integers of offset 0, and two enums or two forward declarations with the
      same name up to its flavor or one without. */
  lemma {:induction false} CompatibleExactly(l: Btf, li: Id, t: Btf, ti: Id)
    requires WfBtf(l) && WfBtf(t) && li < |l.types| && ti < |t.types|
    ensures var (d, e) := (l.types[ElementOf(l, li).0], t.types[ElementOf(t, ti).0]);
      Compatible(l, li, t, ti) <==>
        && ElementOf(l, li).1 == ElementOf(t, ti).1
        && (|| (d.info.kind in {STRUCT, UNION} && e.info.kind in {STRUCT, UNION})
            || d.info.kind == e.info.kind == PTR
            || (d.info.kind == e.info.kind == INT && IntOffset(d) == 0 && IntOffset(e) == 0)
            || ((d.info.kind == e.info.kind == ENUM || d.info.kind == e.info.kind == FWD)
                && (Essential(l.str(d.name)) == "" || Essential(t.str(e.name)) == ""
                    || Essential(l.str(d.name)) == Essential(t.str(e.name)))))
    decreases RankOf(l)[li]
  {
    hide WfBtf, SkipId, EssentialLen;
    var i, j := SkipId(l, li), SkipId(t, ti);
    if IsArray(l, i) && IsArray(t, j) {
      ArrayElements(l, i);
      ArrayElements(t, j);
      CompatibleExactly(l, l.types[i].data.elem, t, t.types[j].data.elem);
    } else if IsArray(l, i) {
      NoArrayBelow(l, li);
    } else if IsArray(t, j) {
      NoArrayBelow(t, ti);
    }
  }

  /** The innermost element type is no array. */
  lemma {:induction false} NoArrayBelow(b: Btf, i: Id)
    requires WfBtf(b) && i < |b.types|
    ensures b.types[ElementOf(b, i).0].info.kind !in {ARRAY, CONST, VOLATILE, RESTRICT, TYPEDEF}
    ensures b.types[SkipId(b, i)].info.kind == ARRAY ==> ElementOf(b, i).1 > 0
    decreases RankOf(b)[i]
  {
    SkipLaws(b, i);
    hide WfBtf, SkipId;
    var j := SkipId(b, i);
    if IsArray(b, j) {
      ArrayElements(b, j);
      NoArrayBelow(b, b.types[j].data.elem);
    }
  }

  /** Every field type is compatible with itself, but for bitfield integers and kinds that no
      field should have. */
  lemma SelfCompatible(b: Btf, i: Id)
    requires WfBtf(b) && i < |b.types|
    ensures var d := b.types[ElementOf(b, i).0];
      Compatible(b, i, b, i) <==>
        d.info.kind in {PTR, ENUM, FWD, STRUCT, UNION} || (d.info.kind == INT && IntOffset(d) == 0)
  {
    CompatibleExactly(b, i, b, i);
  }

  /** `BTF_INT_OFFSET`: bits 16 to 23 of the encoding. */
  lemma IntOffsetPacked(d: Desc, high: nat, off: nat, low: nat)
    requires d.data == IntData(high * 0x100_0000 + off * 0x1_0000 + low) && off < 0x100 && low < 0x1_0000
    ensures IntOffset(d) == off
  {
    assert d.data.encoding / 0x1_0000 == high * 0x100 + off;
  }

  /** With the kind flag, a member offset holds the width of a bitfield in its upper byte. */
  lemma MemberOffsetPacked(b: Btf, i: Id, k: nat, width: nat, off: nat)
    requires i < |b.types| && k < |MembersOf(b, i)| && off < 0x100_0000
        && MembersOf(b, i)[k].offset == width * 0x100_0000 + off
    ensures b.types[i].info.kflag ==> MemberOffset(b, i, k) == off
    ensures !b.types[i].info.kflag ==> MemberOffset(b, i, k) == MembersOf(b, i)[k].offset
  {
  }

  /** The string is `x`, three underscores and `y`, with other characters around them. */
  ghost predicate SplitsInto(s: string, x: string, y: string) {
    s == x + "___" + y && x != "" && y != "" && x[|x| - 1] != '_' && y[0] != '_'
  }

  lemma SepSplits(s: string, k: nat)
    requires IsFlavorSep(s, k)
    ensures SplitsInto(s, s[..k + 1], s[k + 4..])
  {
    assert s == s[..k + 1] + s[k + 1..k + 4] + s[k + 4..];
    assert s[k + 1..k + 4] == "___";
  }

  lemma SplitHasSep(s: string, x: string, y: string)
    requires SplitsInto(s, x, y)
    ensures |x| > 0 && IsFlavorSep(s, |x| - 1) && s[|x| + 3..] == y && s[..|x|] == x
  {
  }

  /** A separator further on is one of the second part. */
  lemma SepBehind(s: string, x: string, y: string, k: nat)
    requires SplitsInto(s, x, y) && |x| <= k && IsFlavorSep(s, k)
    ensures k >= |x| + 3 && IsFlavorSep(y, k - |x| - 3)
  {
    SplitHasSep(s, x, y);
    assert forall m :: |x| + 3 <= m < |s| ==> s[m] == y[m - |x| - 3];
    assert s[|x|] == s[|x| + 1] == s[|x| + 2] == '_';
  }

  /** A name is cut at its last flavor separator. */
  lemma FlavorCut(s: string, x: string, y: string)
    requires SplitsInto(s, x, y) && forall u: string, v: string :: !SplitsInto(y, u, v)
    ensures Essential(s) == x
  {
    hide SplitsInto, IsFlavorSep;
    EssentialLenMeaning(s, |s| - 5);
    SplitHasSep(s, x, y);
    SepInside(s, |x| - 1);
    forall k | |x| <= k <= |s| - 5 ensures !IsFlavorSep(s, k) {
      if IsFlavorSep(s, k) {
        SepBehind(s, x, y, k);
        SepSplits(y, k - |x| - 3);
      }
    }
  }

  lemma SepInside(s: string, k: nat)
    ensures IsFlavorSep(s, k) ==> k <= |s| - 5
  {
  }

  /** A name without one is kept whole. */
  lemma NoFlavor(s: string)
    requires forall x: string, y: string :: !SplitsInto(s, x, y)
    ensures Essential(s) == s
  {
    hide SplitsInto, IsFlavorSep;
    EssentialLenMeaning(s, |s| - 5);
    forall k | 0 <= k <= |s| - 5 ensures !IsFlavorSep(s, k) {
      if IsFlavorSep(s, k) {
        SepSplits(s, k);
      }
    }
  }

  lemma ArrayElements(b: Btf, i: Id)
    requires WfBtf(b) && i < |b.types| && IsArray(b, i)
    ensures b.types[i].data.ArrayData? && b.types[i].data.elem < |b.types|
    ensures RankOf(b)[b.types[i].data.elem] < RankOf(b)[i]
  {
    assert Grounded(b.types, RankOf(b));
  }

  // ---------------------------------------------------------------- the search for a member

  /** What is searched for: a named member of a local struct. */
  datatype Query = Query(local: Btf, ty: Id, idx: nat, name: string, target: Btf)

  ghost predicate WfQuery(q: Query) {
    && WfBtf(q.local) && WfBtf(q.target)
    && q.ty < |q.local.types| && q.idx < |MembersOf(q.local, q.ty)|
    && q.name == MemberName(q.local, q.ty, q.idx)
  }

  ghost predicate At(q: Query, i: Id) { WfQuery(q) && i < |q.target.types| }

  ghost function Count(q: Query, i: Id): nat
    requires At(q, i)
  {
    |MembersOf(q.target, i)|
  }

  function LocalType(q: Query): Id
    requires q.ty < |q.local.types| && q.idx < |MembersOf(q.local, q.ty)|
  {
    MembersOf(q.local, q.ty)[q.idx].ty
  }

  /** `raw` is what the search has added to the raw spec, `off` to the bit offset. */
  datatype Outcome =
    | Found(raw: seq<nat>, off: nat, owner: Id, idx: nat, next: Id)
    | Missing(raw: seq<nat>, off: nat)
    | TooDeep

  function After(junk: seq<nat>, off: nat, o: Outcome): Outcome {
    match o
    case Found(r, n, owner, idx, next) => Found(junk + r, off + n, owner, idx, next)
    case Missing(r, n) => Missing(junk + r, off + n)
    case TooDeep => TooDeep
  }

  function AllButLast(k: nat, r: seq<nat>): seq<nat> { ([k] + r)[..|r|] }

  /** What follows the search `o` of an anonymous member `k`: the search ends there or goes
      on to `rest`. */
  function Return(k: nat, off: nat, o: Outcome, rest: Outcome): Outcome {
    if o.Missing? then After(AllButLast(k, o.raw), o.off, rest) else After([k], off, o)
  }

  /** `bpf_core_match_member`, with room for `room` more raw indices. A search that comes
      back from an anonymous member empty-handed is undone by one raw index and the offset
      of that member, whatever it left behind. */
  ghost function Search(q: Query, id: Id, room: nat): (o: Outcome)
    requires At(q, id)
    ensures o.Missing? ==> |o.raw| <= room
    ensures o.Found? ==> |o.raw| <= room && o.next < |q.target.types|
    decreases room, 1, 0
  {
    var i := SkipId(q.target, id);
    if Composite(q.target, i) then SearchFrom(q, i, 0, room) else Missing([], 0)
  }

  ghost function SearchFrom(q: Query, i: Id, k: nat, room: nat): (o: Outcome)
    requires At(q, i) && k <= Count(q, i)
    ensures o.Missing? ==> |o.raw| <= room
    ensures o.Found? ==> |o.raw| <= room && o.next < |q.target.types|
    decreases room, 0, Count(q, i) - k
  {
    if k == Count(q, i) then Missing([], 0)
    else if room == 0 then TooDeep
    else
      var (m, off, name) := (MembersOf(q.target, i)[k], MemberOffset(q.target, i, k), MemberName(q.target, i, k));
      if name == [] then
        var o := Search(q, m.ty, room - 1);
        Return(k, off, o, if o.Missing? then SearchFrom(q, i, k + 1, room - |o.raw|) else o)
      else if name == q.name then
        if Compatible(q.local, LocalType(q), q.target, m.ty) then Found([k], off, i, k, m.ty) else Missing([k], off)
      else SearchFrom(q, i, k + 1, room)
  }

  // ---------------------------------------------------------------- what the search finds

  /** Path `p` leads from struct or union `i` through anonymous members to a member of the
      wanted name. */
  ghost predicate IsHit(q: Query, i: Id, p: seq<nat>)
    requires At(q, i)
    decreases |p|
  {
    && p != [] && p[0] < Count(q, i)
    && var m := MembersOf(q.target, i)[p[0]].ty;
       if MemberName(q.target, i, p[0]) == [] then Composite(q.target, SkipId(q.target, m))
           && IsHit(q, SkipId(q.target, m), p[1..])
       else p[1..] == [] && MemberName(q.target, i, p[0]) == q.name
  }

  /** The member at the end of a path: its owner, index and type, and its offset in all. */
  datatype Place = Place(owner: Id, idx: nat, next: Id, off: nat)

  ghost function PlaceOf(q: Query, i: Id, p: seq<nat>): (r: Place)
    requires At(q, i) && IsHit(q, i, p)
    ensures r.next < |q.target.types|
    decreases |p|
  {
    var (m, off) := (MembersOf(q.target, i)[p[0]], MemberOffset(q.target, i, p[0]));
    if MemberName(q.target, i, p[0]) == [] then
      var r := PlaceOf(q, SkipId(q.target, m.ty), p[1..]);
      r.(off := off + r.off)
    else Place(i, p[0], m.ty, off)
  }

  ghost predicate Fits(q: Query, i: Id, p: seq<nat>)
    requires At(q, i) && IsHit(q, i, p)
  {
    Compatible(q.local, LocalType(q), q.target, PlaceOf(q, i, p).next)
  }

  /** The order of the search. */
  predicate Before(p: seq<nat>, r: seq<nat>) {
    p != [] && r != [] && (p[0] < r[0] || (p[0] == r[0] && Before(p[1..], r[1..])))
  }

  ghost predicate HitFrom(q: Query, i: Id, k: nat, p: seq<nat>)
    requires At(q, i)
  {
    IsHit(q, i, p) && k <= p[0]
  }

  ghost predicate FirstFrom(q: Query, i: Id, k: nat, p: seq<nat>)
    requires At(q, i)
  {
    HitFrom(q, i, k, p) && forall r :: HitFrom(q, i, k, r) ==> !Before(r, p)
  }

  /** What the outcome of a search says, in terms of the hits in search order. A search that
      finds a member has kept exactly the path to it if that is the first hit, and has kept
      too many raw indices if it passed an incompatible hit on the way. */
  ghost predicate Explains(q: Query, i: Id, k: nat, o: Outcome, p: seq<nat>)
    requires At(q, i)
  {
    match o
    case Found(raw, off, owner, idx, next) =>
      && HitFrom(q, i, k, p) && Fits(q, i, p)
      && PlaceOf(q, i, p).owner == owner && PlaceOf(q, i, p).idx == idx && PlaceOf(q, i, p).next == next
      && (if FirstFrom(q, i, k, p) then raw == p && off == PlaceOf(q, i, p).off else |raw| > |p|)
    case Missing(raw, off) =>
      if raw == [] then off == 0 && forall r :: !HitFrom(q, i, k, r)
      else FirstFrom(q, i, k, p) && !Fits(q, i, p)
    case TooDeep => true
  }

  lemma {:induction false} SearchExplained(q: Query, i: Id, k: nat, room: nat) returns (p: seq<nat>)
    requires At(q, i) && k <= Count(q, i)
    ensures Explains(q, i, k, SearchFrom(q, i, k, room), p)
    decreases room, 0, Count(q, i) - k
  {
    hide At, Count, Compatible, Search, SearchFrom, Explains, Anonymous, MemberName, MembersOf;
    p := [];
    if k == Count(q, i) || room == 0 {
      EndExplained(q, i, k, room);
    } else if Anonymous(q, i, k) {
      SearchDescends(q, i, k, room);
      var o := SearchFrom(q, Below(q, i, k), 0, room - 1);
      var sub := SearchExplained(q, Below(q, i, k), 0, room - 1);
      var rest, o' := [], o;
      if o.Missing? {
        rest := SearchExplained(q, i, k + 1, room - |o.raw|);
        o' := SearchFrom(q, i, k + 1, room - |o.raw|);
      }
      p := DescentExplained(q, i, k, o, sub, o', rest);
    } else if HasName(q, i, k) {
      p := [k];
      NamedFound(q, i, k, room);
    } else {
      p := SearchExplained(q, i, k + 1, room);
      NoHitHere(q, i, k);
      SteppedOver(q, i, k, room);
      SkipMember(q, i, k, SearchFrom(q, i, k + 1, room), p);
    }
  }

  ghost predicate HasName(q: Query, i: Id, k: nat)
    requires At(q, i) && k < Count(q, i)
  {
    MemberName(q.target, i, k) != [] && MemberName(q.target, i, k) == q.name
  }

  lemma EndExplained(q: Query, i: Id, k: nat, room: nat)
    requires At(q, i) && k <= Count(q, i) && (k == Count(q, i) || room == 0)
    ensures Explains(q, i, k, SearchFrom(q, i, k, room), [])
  {
    hide WfBtf, Compatible, Search;
    assert k == Count(q, i) ==> forall r :: !HitFrom(q, i, k, r);
  }

  lemma SearchDescends(q: Query, i: Id, k: nat, room: nat)
    requires At(q, i) && Anonymous(q, i, k) && room > 0
    ensures var o := SearchFrom(q, Below(q, i, k), 0, room - 1);
            SearchFrom(q, i, k, room) ==
              Return(k, MemberOffset(q.target, i, k), o, if o.Missing? then SearchFrom(q, i, k + 1, room - |o.raw|)
                  else o)
  {
    hide WfBtf, Compatible, MemberOffset, Return, SkipId, IsHit, MemberName;
    MemberInRange(q.target, i, k);
    assert Search(q, MembersOf(q.target, i)[k].ty, room - 1) == SearchFrom(q, Below(q, i, k), 0, room - 1);
  }

  lemma DescentExplained(q: Query, i: Id, k: nat, o: Outcome, sub: seq<nat>, o': Outcome, rest: seq<nat>)
      returns (p: seq<nat>)
    requires At(q, i) && Anonymous(q, i, k)
    requires Explains(q, Below(q, i, k), 0, o, sub) && (o.Missing? ==> Explains(q, i, k + 1, o', rest))
    ensures Explains(q, i, k, Return(k, MemberOffset(q.target, i, k), o, o'), p)
  {
    hide At, MemberOffset, Explains, FirstFrom, HitFrom, Below;
    p := [k] + sub;
    if o.Found? {
      FoundBelow(q, i, k, o, sub);
    } else if o.TooDeep? {
      TooDeepExplained(q, i, k, p);
    } else if o.raw == [] {
      NothingBelow(q, i, k, o, sub, o', rest);
      p := rest;
    } else {
      MissedBelow(q, i, k, o, sub, o', rest);
      if o'.Found? { p := rest; }
    }
  }

  lemma SteppedOver(q: Query, i: Id, k: nat, room: nat)
    requires At(q, i) && k < Count(q, i) && room > 0
    requires !HasName(q, i, k)
    requires !Anonymous(q, i, k)
    ensures SearchFrom(q, i, k, room) == SearchFrom(q, i, k + 1, room)
  {
    hide WfBtf, Compatible, MemberOffset;
    AfterNothing(k, SearchFrom(q, i, k + 1, room));
  }

  lemma TooDeepExplained(q: Query, i: Id, k: nat, p: seq<nat>)
    requires At(q, i)
    ensures Explains(q, i, k, TooDeep, p)
  {
  }

  lemma NamedFound(q: Query, i: Id, k: nat, room: nat)
    requires At(q, i) && k < Count(q, i) && room > 0
    requires HasName(q, i, k)
    ensures Explains(q, i, k, SearchFrom(q, i, k, room), [k])
  {
    hide WfBtf, MemberOffset, Compatible;
    NamedHit(q, i, k);
    hide IsHit, PlaceOf, FirstFrom;
  }

  lemma MemberInRange(b: Btf, i: Id, k: nat)
    requires WfBtf(b) && i < |b.types| && k < |MembersOf(b, i)|
    ensures MembersOf(b, i)[k].ty < |b.types|
  {
  }

  lemma AfterNothing(k: nat, o: Outcome)
    ensures After(AllButLast(k, []), 0, o) == o
  {
    assert AllButLast(k, []) == [];
    assert forall r: seq<nat> :: [] + r == r;
  }

  lemma NamedHit(q: Query, i: Id, k: nat)
    requires At(q, i) && k < Count(q, i)
    requires HasName(q, i, k)
    ensures FirstFrom(q, i, k, [k])
    ensures PlaceOf(q, i, [k]) == Place(i, k, MembersOf(q.target, i)[k].ty, MemberOffset(q.target, i, k))
  {
    hide WfBtf, MemberOffset;
    assert [k][1..] == [];
    forall r | HitFrom(q, i, k, r) ensures !Before(r, [k]) {
      assert !Before(r[1..], []);
    }
  }

  lemma NoHitHere(q: Query, i: Id, k: nat)
    requires At(q, i) && k < Count(q, i)
    requires !HasName(q, i, k)
    requires !Anonymous(q, i, k)
    ensures forall r :: HitFrom(q, i, k, r) ==> r[0] != k
  {
  }

  /** A member that no hit passes through does not matter. */
  lemma SkipMember(q: Query, i: Id, k: nat, o: Outcome, p: seq<nat>)
    requires At(q, i)
    requires Explains(q, i, k + 1, o, p) && forall r :: HitFrom(q, i, k, r) ==> r[0] != k
    ensures Explains(q, i, k, o, p)
  {
    hide IsHit, Before, Fits, PlaceOf, WfQuery;
    assert forall r :: HitFrom(q, i, k, r) <==> HitFrom(q, i, k + 1, r);
  }

  // Hits below an anonymous member `k` of `i` are the hits of the member's type.

  ghost predicate Anonymous(q: Query, i: Id, k: nat)
    requires At(q, i)
  {
    && k < Count(q, i) && MemberName(q.target, i, k) == []
    && Composite(q.target, SkipId(q.target, MembersOf(q.target, i)[k].ty))
  }

  ghost function Below(q: Query, i: Id, k: nat): (j: Id)
    requires At(q, i) && Anonymous(q, i, k)
    ensures At(q, j)
  {
    SkipId(q.target, MembersOf(q.target, i)[k].ty)
  }

  lemma HitBelow(q: Query, i: Id, k: nat, r: seq<nat>)
    requires At(q, i) && Anonymous(q, i, k)
    ensures IsHit(q, i, [k] + r) <==> IsHit(q, Below(q, i, k), r)
    ensures IsHit(q, Below(q, i, k), r) ==>
              PlaceOf(q, i, [k] + r) ==
                  PlaceOf(q, Below(q, i, k),
                  r).(off := MemberOffset(q.target, i, k) + PlaceOf(q, Below(q, i, k), r).off)
  {
    hide WfBtf, MemberOffset;
    assert ([k] + r)[1..] == r;
  }

  lemma BeforeBelow(k: nat, p: seq<nat>, r: seq<nat>)
    ensures Before([k] + p, [k] + r) == Before(p, r)
  {
    assert ([k] + p)[1..] == p && ([k] + r)[1..] == r;
  }

  lemma FirstBelow(q: Query, i: Id, k: nat, p: seq<nat>)
    requires At(q, i) && Anonymous(q, i, k)
    ensures FirstFrom(q, i, k, [k] + p) <==> FirstFrom(q, Below(q, i, k), 0, p)
  {
    hide WfBtf, IsHit, Anonymous, Below;
    var j := Below(q, i, k);
    HitBelow(q, i, k, p);
    forall r | HitFrom(q, j, 0, r) && Before(r, p) ensures !FirstFrom(q, i, k, [k] + p) {
      HitBelow(q, i, k, r);
      BeforeBelow(k, r, p);
      assert HitFrom(q, i, k, [k] + r);
    }
    forall r | HitFrom(q, i, k, r) && Before(r, [k] + p) ensures !FirstFrom(q, j, 0, p) {
      assert r[0] == k && r == [k] + r[1..] by { HitNotEmpty(q, i, r); }
      HitBelow(q, i, k, r[1..]);
      BeforeBelow(k, r[1..], p);
      assert HitFrom(q, j, 0, r[1..]) by { HitNotEmpty(q, j, r[1..]); }
    }
    HitNotEmpty(q, j, p);
  }

  lemma HitNotEmpty(q: Query, i: Id, r: seq<nat>)
    requires At(q, i)
    ensures IsHit(q, i, r) ==> r != [] && r[0] < Count(q, i)
  {
  }

  lemma NoHitBelow(q: Query, i: Id, k: nat)
    requires At(q, i) && Anonymous(q, i, k)
    requires forall r :: !HitFrom(q, Below(q, i, k), 0, r)
    ensures forall r :: HitFrom(q, i, k, r) ==> r[0] != k
  {
    hide WfBtf, Anonymous, Below;
    forall r | HitFrom(q, i, k, r) ensures r[0] != k {
      if r[0] == k {
        HitNotEmpty(q, i, r);
        assert r == [k] + r[1..];
        var hit := HitFrom(q, Below(q, i, k), 0, r[1..]);
        HitBelow(q, i, k, r[1..]);
      }
    }
  }

  lemma NothingBelow(q: Query, i: Id, k: nat, o: Outcome, sub: seq<nat>, o': Outcome, rest: seq<nat>)
    requires At(q, i) && Anonymous(q, i, k)
    requires o.Missing? && o.raw == [] && Explains(q, Below(q, i, k), 0, o, sub)
    requires Explains(q, i, k + 1, o', rest)
    ensures Explains(q, i, k, After(AllButLast(k, o.raw), o.off, o'), rest)
  {
    hide WfBtf, Anonymous, Below, HitFrom, FirstFrom;
    NoHitBelow(q, i, k);
    AfterNothing(k, o');
    hide Explains;
    SkipMember(q, i, k, o', rest);
  }

  lemma FoundBelow(q: Query, i: Id, k: nat, o: Outcome, sub: seq<nat>)
    requires At(q, i) && Anonymous(q, i, k)
    requires o.Found? && Explains(q, Below(q, i, k), 0, o, sub)
    ensures Explains(q, i, k, After([k], MemberOffset(q.target, i, k), o), [k] + sub)
  {
    hide WfBtf, IsHit, Anonymous, Below, PlaceOf, Compatible, FirstFrom;
    HitBelow(q, i, k, sub);
    FirstBelow(q, i, k, sub);
  }

  lemma MissedBelow(q: Query, i: Id, k: nat, o: Outcome, sub: seq<nat>, o': Outcome, rest: seq<nat>)
    requires At(q, i) && Anonymous(q, i, k)
    requires o.Missing? && o.raw != [] && Explains(q, Below(q, i, k), 0, o, sub)
    requires Explains(q, i, k + 1, o', rest)
    ensures Explains(q, i, k, After(AllButLast(k, o.raw), o.off, o'), if o'.Found? then rest else [k] + sub)
  {
    hide WfBtf, IsHit, Anonymous, Below, PlaceOf, Compatible;
    HitBelow(q, i, k, sub);
    FirstBelow(q, i, k, sub);
    assert |AllButLast(k, o.raw)| == |o.raw|;
    HitNotEmpty(q, i, rest);
    if o'.Found? {
      assert Before([k] + sub, rest);
      assert HitFrom(q, i, k, [k] + sub);
    }
  }

  // ---------------------------------------------------------------- what re-parsing finds

  /** Only offset 0 names the empty string, so both tests for a missing name agree. */
  ghost predicate PlainNames(b: Btf) {
    forall i: Id, k {:trigger MembersOf(b, i)[k]} :: i < |b.types| && 0 <= k < |MembersOf(b, i)| ==>
      (MembersOf(b, i)[k].name == 0 <==> MemberName(b, i, k) == "")
  }

  /** No compatible member of the wanted name comes after an incompatible one. */
  ghost predicate FirstFits(q: Query)
    requires WfQuery(q)
  {
    forall i: Id, p :: At(q, i) && IsHit(q, i, p) && Fits(q, i, p) ==> FirstFrom(q, i, 0, p)
  }

  /** The wanted name occurs at most once in every flattened struct or union. */
  ghost predicate UniqueHits(q: Query)
    requires WfQuery(q)
  {
    forall i: Id, p, r :: At(q, i) && IsHit(q, i, p) && IsHit(q, i, r) ==> p == r
  }

  lemma {:induction false} NotBeforeItself(p: seq<nat>)
    ensures !Before(p, p)
  {
    if p != [] {
      NotBeforeItself(p[1..]);
    }
  }

  lemma UniqueHitsFit(q: Query)
    requires WfQuery(q) && UniqueHits(q)
    ensures FirstFits(q)
  {
    hide WfQuery, IsHit, Before, Fits;
    forall i: Id, p | At(q, i) && IsHit(q, i, p) && Fits(q, i, p) ensures FirstFrom(q, i, 0, p) {
      NotBeforeItself(p);
      HitNotEmpty(q, i, p);
    }
  }

  /** Parsing the path to a member gives one accessor, of that member, at its offset. */
  lemma {:induction false} HitParses(q: Query, id: Id, p: seq<nat>)
    requires At(q, id) && At(q, SkipId(q.target, id)) && PlainNames(q.target)
    requires Composite(q.target, SkipId(q.target, id)) && IsHit(q, SkipId(q.target, id), p)
    ensures var place := PlaceOf(q, SkipId(q.target, id), p);
            Walk(q.target, id, p) == Walked(place.next, [Field(place.owner, place.idx, q.name)], place.off)
    decreases |p|
  {
    hide WfBtf, MemberOffset;
    var i := SkipId(q.target, id);
    var m := MembersOf(q.target, i)[p[0]];
    MemberInRange(q.target, i, p[0]);
    if MemberName(q.target, i, p[0]) == "" {
      HitParses(q, m.ty, p[1..]);
      assert Step(q.target, id, p[0]) == Walked(m.ty, [], MemberOffset(q.target, i, p[0]));
    } else {
      assert Walk(q.target, m.ty, p[1..]) == Walked(m.ty, [], 0);
      assert Step(q.target, id, p[0]) == Walked(m.ty, [Field(i, p[0], q.name)], MemberOffset(q.target, i, p[0]));
    }
  }

  // ---------------------------------------------------------------- the code

  /** The fields of `struct bpf_core_spec`. */
  datatype View = View(accs: seq<Accessor>, raw: seq<nat>, bit: U32)

  function Pushed(v: View, raw: seq<nat>, off: nat): View { View(v.accs, v.raw + raw, Add32(v.bit, off)) }

  /** How an outcome shows in the spec. */
  ghost predicate Applied(q: Query, o: Outcome, v: View, w: View, found: int, next: Id) {
    match o
    case Found(r, off, owner, idx, ty) =>
      found == 1 && w == Pushed(v, r, off).(accs := v.accs + [Field(owner, idx, q.name)]) && next == ty
    case Missing(r, off) => found == 0 && w == Pushed(v, r, off)
    case TooDeep => found == -E2BIG && |w.raw| == MAX_LEN
  }

  lemma PushedTwice(v: View, r: seq<nat>, m: nat, s: seq<nat>, n: nat)
    ensures Pushed(Pushed(v, r, m), s, n) == Pushed(v, r + s, m + n)
  {
    assert (v.raw + r) + s == v.raw + (r + s);
  }

  lemma PushedNothing(v: View)
    ensures Pushed(v, [], 0) == v
  {
    assert v.raw + [] == v.raw;
  }

  /** Taking back one raw index and the offset of the member it was pushed for. */
  lemma PoppedMember(v: View, k: nat, off: nat, r: seq<nat>, n: nat)
    ensures var w := Pushed(Pushed(v, [k], off), r, n);
            View(w.accs, w.raw[..|w.raw| - 1], Sub32(w.bit, off % TWO_32)) == Pushed(v, AllButLast(k, r), n)
  {
    UndoAdd(v.bit, off, n);
    AddTwice(v.bit, off, n);
    hide Add32, Sub32;
    var s := v.raw + [k] + r;
    assert s[..|s| - 1] == v.raw + AllButLast(k, r);
  }

  function Popped(w: View, off: nat): View
    requires w.raw != []
  {
    View(w.accs, w.raw[..|w.raw| - 1], Sub32(w.bit, off % TWO_32))
  }

  lemma AfterAfter(j: seq<nat>, m: nat, k: seq<nat>, n: nat, o: Outcome)
    ensures After(j, m, After(k, n, o)) == After(j + k, m + n, o)
  {
    if !o.TooDeep? {
      assert j + (k + o.raw) == (j + k) + o.raw;
    }
  }

  lemma AppliedAfter(q: Query, o: Outcome, j: seq<nat>, n: nat, v: View, w: View, found: int, next: Id)
    requires Applied(q, o, Pushed(v, j, n), w, found, next)
    ensures Applied(q, After(j, n, o), v, w, found, next)
  {
    if !o.TooDeep? {
      PushedTwice(v, j, n, o.raw, o.off);
    }
  }

  lemma NothingApplied(q: Query, v: View, next: Id)
    ensures Applied(q, Missing([], 0), v, v, 0, next)
  {
    PushedNothing(v);
  }

  /** Going from member `k` on to member `l` has pushed `j` and added `m`. */
  ghost predicate Left(q: Query, i: Id, k: nat, l: nat, room: nat, v: View, w: View, j: seq<nat>, m: nat) {
    && At(q, i) && k <= Count(q, i) && l <= Count(q, i)
    && w == Pushed(v, j, m) && |j| <= room
    && After(j, m, SearchFrom(q, i, l, room - |j|)) == SearchFrom(q, i, k, room)
  }

  /** The search has passed the members from `k` up to `l`: the spec was `v` and is now `w`,
      which may hold leftovers. */
  ghost predicate Passed(q: Query, i: Id, k: nat, l: nat, room: nat, v: View, w: View) {
    && |v.raw| <= |w.raw| <= |v.raw| + room && v.accs == w.accs
    && exists j: seq<nat>, m: nat :: Left(q, i, k, l, room, v, w, j, m)
  }

  /** Member `k` has ended the search, or the search has passed it. */
  ghost predicate Tried(q: Query, i: Id, k: nat, v: View, w: View, done: bool, found: int, next: Id) {
    && At(q, i) && k < Count(q, i) && |v.raw| <= MAX_LEN
    && if done then Applied(q, SearchFrom(q, i, k, MAX_LEN - |v.raw|), v, w, found, next)
       else Passed(q, i, k, k + 1, MAX_LEN - |v.raw|, v, w)
  }

  lemma SearchBegins(q: Query, i: Id, room: nat, v: View)
    requires At(q, i)
    ensures Passed(q, i, 0, 0, room, v, v) && i < |q.target.types| && Count(q, i) == |MembersOf(q.target, i)|
  {
    hide WfBtf, SearchFrom;
    AfterNothing(0, SearchFrom(q, i, 0, room));
    PushedNothing(v);
    assert Left(q, i, 0, 0, room, v, v, [], 0);
  }

  lemma SearchGoesOn(q: Query, i: Id, k: nat, v: View, w: View, x: View, found: int, next: Id)
    requires At(q, i) && k < Count(q, i) && |v.raw| <= MAX_LEN
    requires Passed(q, i, 0, k, MAX_LEN - |v.raw|, v, w) && Tried(q, i, k, w, x, false, found, next)
    ensures Passed(q, i, 0, k + 1, MAX_LEN - |v.raw|, v, x) && |x.raw| >= |v.raw|
  {
    hide At, Count, SearchFrom, After;
    var room := MAX_LEN - |v.raw|;
    var j: seq<nat>, m: nat :| Left(q, i, 0, k, room, v, w, j, m);
    assert |j| == |w.raw| - |v.raw|;
    var j': seq<nat>, m': nat :| Left(q, i, k, k + 1, room - |j|, w, x, j', m');
    AfterAfter(j, m, j', m', SearchFrom(q, i, k + 1, room - |j| - |j'|));
    PushedTwice(v, j, m, j', m');
    assert Left(q, i, 0, k + 1, room, v, x, j + j', m + m');
  }

  lemma SearchDone(q: Query, i: Id, k: nat, v: View, w: View, x: View, found: int, next: Id)
    requires At(q, i) && k < Count(q, i) && |v.raw| <= MAX_LEN
    requires Passed(q, i, 0, k, MAX_LEN - |v.raw|, v, w) && Tried(q, i, k, w, x, true, found, next)
    ensures Applied(q, SearchFrom(q, i, 0, MAX_LEN - |v.raw|), v, x, found, next)
  {
    hide At, Count, SearchFrom, After, Applied;
    var room := MAX_LEN - |v.raw|;
    var j: seq<nat>, m: nat :| Left(q, i, 0, k, room, v, w, j, m);
    AppliedAfter(q, SearchFrom(q, i, k, room - |j|), j, m, v, x, found, next);
  }

  lemma SearchEnds(q: Query, i: Id, room: nat, v: View, w: View, next: Id)
    requires At(q, i) && Passed(q, i, 0, Count(q, i), room, v, w)
    ensures Applied(q, SearchFrom(q, i, 0, room), v, w, 0, next)
  {
    var n := Count(q, i);
    hide At, WfQuery, Count, After, Applied, Search;
    var j: seq<nat>, m: nat :| Left(q, i, 0, n, room, v, w, j, m);
    NothingApplied(q, w, next);
    EmptySearch(q, i, room - |j|);
    AppliedAfter(q, Missing([], 0), j, m, v, w, 0, next);
  }

  lemma EmptySearch(q: Query, i: Id, room: nat)
    requires At(q, i)
    ensures SearchFrom(q, i, Count(q, i), room) == Missing([], 0)
  {
  }

  // ---------------------------------------------------------------- parsing, again

  /** The rest of a parse, put after what is parsed already. */
  function Extended(w: Walked, v: Walked): Walked
    requires w.Walked?
  {
    if v.Failed? then v else Then(w, v)
  }

  lemma {:induction false} ParseAppend(b: Btf, root: Id, p: seq<nat>, q: seq<nat>)
    requires WfBtf(b) && root < |b.types| && p != [] && ParseSpec(b, root, p).Walked?
    ensures var w := ParseSpec(b, root, p);
            ParseSpec(b, root, p + q) == Extended(w, Walk(b, w.id, q))
  {
    hide WfBtf, Step, Element, Walk;
    assert (p + q)[0] == p[0] && (p + q)[1..] == p[1..] + q;
    var w := Element(b, SkipId(b, root), p[0]);
    ElementInRange(b, SkipId(b, root), p[0]);
    WalkAppend(b, w.id, p[1..], q);
    var v := Walk(b, w.id, p[1..]);
    var u := Walk(b, v.id, q);
    if u.Walked? {
      assert w.accs + (v.accs + u.accs) == (w.accs + v.accs) + u.accs;
    }
  }

  lemma ElementInRange(b: Btf, i: Id, k: nat)
    requires i < |b.types|
    ensures Element(b, i, k).Walked? ==> Element(b, i, k).id < |b.types|
  {
  }

  lemma WalkOne(b: Btf, id: Id, k: nat)
    requires WfBtf(b) && id < |b.types|
    ensures Walk(b, id, [k]) == Step(b, id, k)
  {
    hide Step, WfBtf;
    var w := Step(b, id, k);
    assert [k][1..] == [];
    if w.Walked? {
      assert Walk(b, w.id, []) == Walked(w.id, [], 0);
      assert w.accs + [] == w.accs;
    }
  }

  /** The spec holds what parsing its own raw indices gives, and `id` is where they lead. */
  ghost predicate Reparses(b: Btf, root: Id, v: View, id: Id)
    requires WfBtf(b) && root < |b.types|
  {
    if v.raw == [] then v == View([], [], 0) && id == root
    else
      var w := ParseSpec(b, root, v.raw);
      w.Walked? && w.id == id && w.accs == v.accs && w.off % TWO_32 == v.bit
  }

  lemma ReparsesMore(b: Btf, root: Id, v: View, id: Id, p: seq<nat>)
    requires WfBtf(b) && root < |b.types| && id < |b.types| && Reparses(b, root, v, id) && v.raw != []
        && Walk(b, id, p).Walked?
    ensures var w := Walk(b, id, p);
            Reparses(b, root, View(v.accs + w.accs, v.raw + p, Add32(v.bit, w.off)), w.id)
  {
    hide WfBtf, Walk, ParseSpec;
    var w := ParseSpec(b, root, v.raw);
    ParseAppend(b, root, v.raw, p);
    AddTwice(0, w.off, Walk(b, id, p).off);
  }

  function QueryFor(l: Btf, a: Accessor, t: Btf): Query
    requires a.Field?
  {
    Query(l, a.ty, a.idx, a.name, t)
  }

  /** What parsing the local access string has established. */
  ghost predicate LocalSpec(l: Btf, local: seq<Accessor>, t: Btf) {
    && local != [] && local[0].Index?
    && forall a :: a in local && a.Field? ==> WfQuery(QueryFor(l, a, t))
  }

  /** The target spec goes through the same named fields and array indices. */
  predicate SameAccessor(a: Accessor, b: Accessor) {
    match a
    case Index(_, k) => b.Index? && b.idx == k
    case Field(_, _, name) => b.Field? && b.name == name
  }

  predicate Corresponds(local: seq<Accessor>, accs: seq<Accessor>) {
    |local| == |accs| && forall j :: 0 <= j < |local| ==> SameAccessor(local[j], accs[j])
  }

  /** Nothing in the target types can mislead the search for this accessor. */
  ghost predicate Clean(l: Btf, a: Accessor, t: Btf) {
    PlainNames(t) && (a.Field? ==> WfQuery(QueryFor(l, a, t)) && FirstFits(QueryFor(l, a, t)))
  }

  // ---------------------------------------------------------------- the rounds of a match

  /** The spec after element `k` of type `e` was gone to. */
  ghost function WithElement(t: Btf, v: View, e: Id, k: nat): View {
    var size := ResolvedSize(t, e);
    View(v.accs + [Index(e, k)], v.raw + [k], if size < 0 then v.bit else Add32(v.bit, Times(k, size) * 8))
  }

  /** A round for a field is what the search makes of it, misleading or not. */
  ghost predicate FieldRound(q: Query, id: Id, v: View, w: View, r: int, next: Id) {
    && WfBtf(q.target) && id < |q.target.types| && |v.raw| <= MAX_LEN && At(q, SkipId(q.target, id))
    && Applied(q, Search(q, SkipId(q.target, id), MAX_LEN - |v.raw|), v, w, r, next)
  }

  /** A round for an index: the element is there or not, or it has no fitting size. */
  ghost predicate ElementRound(l: Btf, a: Accessor, t: Btf, first: bool, id: Id, v: View, w: View, r: int, next: Id)
    requires a.Index?
  {
    if r == 1 then OneStep(l, a, t, first, id, [a.idx], next) && w == WithElement(t, v, next, a.idx)
    else if r == 0 then w == v && NoStep(l, a, t, first, id)
    else
      || (w == v && |v.raw| == MAX_LEN)
      || (w.raw == v.raw + [a.idx] && exists e: Id ::
        OneStep(l, a, t, first, id, [a.idx], e) && !(0 <= ResolvedSize(t, e) < 0x8000_0000))
  }

  /** One round for accessor `a`, from target type `id`: it turns the spec `v` into `w`. */
  ghost predicate Round(l: Btf, a: Accessor, t: Btf, first: bool, id: Id, v: View, w: View, r: int, next: Id) {
    if a.Field? then FieldRound(QueryFor(l, a, t), id, v, w, r, next)
    else ElementRound(l, a, t, first, id, v, w, r, next)
  }

  predicate IsFirst(n: nat) { n == 0 }

  /** The spec `v` and the target type `id` after `n` rounds. */
  ghost predicate Rounds(l: Btf, local: seq<Accessor>, t: Btf, root: Id, n: nat, v: View, id: Id) {
    if n == 0 then v == View([], [], 0) && id == root
    else if n > |local| then false
    else
      var m := n - 1;
      exists u: View, from: Id ::
        Rounds(l, local, t, root, m, u, from) && Round(l, local[m], t, IsFirst(m), from, u, v, 1, id)
  }

  /** A match goes through all rounds, or stops in one of them. */
  ghost predicate MatchRuns(l: Btf, local: seq<Accessor>, t: Btf, root: Id, w: View, r: int) {
    if r == 1 then exists id: Id :: Rounds(l, local, t, root, |local|, w, id)
    else exists n: nat, v: View, id: Id, next: Id ::
        n < |local| && Rounds(l, local, t, root, n, v, id) && Round(l, local[n], t, IsFirst(n), id, v, w, r, next)
  }

  lemma TheOnlyStep(l: Btf, a: Accessor, t: Btf, first: bool, id: Id, p: seq<nat>, next: Id)
    requires OnlyStep(l, a, t, first, id, p, next)
    ensures OneStep(l, a, t, first, id, p, next)
  {
  }

  lemma NoRounds(l: Btf, local: seq<Accessor>, t: Btf, root: Id)
    ensures Rounds(l, local, t, root, 0, View([], [], 0), root)
  {
  }

  lemma RoundsNext(l: Btf, local: seq<Accessor>, t: Btf, root: Id, n: nat, u: View, from: Id, v: View, id: Id)
    requires n < |local| && Rounds(l, local, t, root, n, u, from)
    requires Round(l, local[n], t, IsFirst(n), from, u, v, 1, id)
    ensures Rounds(l, local, t, root, n + 1, v, id)
  {
    hide Round;
  }

  // ---------------------------------------------------------------- which path a match follows

  /** One local accessor, taken from target type `id`: raw indices `p` lead to type `next`. */
  ghost predicate OneStep(l: Btf, a: Accessor, t: Btf, first: bool, id: Id, p: seq<nat>, next: Id) {
    && WfBtf(l) && WfBtf(t) && id < |t.types|
    && var i := SkipId(t, id);
       match a
       case Index(_, k) =>
         && p == [k]
         && (if first then next == i
             else
               && IsArray(t, i) && t.types[i].data.ArrayData? && k < t.types[i].data.nelems
               && t.types[i].data.elem < |t.types| && next == SkipId(t, t.types[i].data.elem))
       case Field(_, _, _) =>
         var q := QueryFor(l, a, t);
         WfQuery(q) && IsHit(q, i, p) && Fits(q, i, p) && next == PlaceOf(q, i, p).next
  }

  /** The only way on. */
  ghost predicate OnlyStep(l: Btf, a: Accessor, t: Btf, first: bool, id: Id, p: seq<nat>, next: Id) {
    && OneStep(l, a, t, first, id, p, next)
    && forall r: seq<nat>, n: Id :: OneStep(l, a, t, first, id, r, n) ==> r == p && n == next
  }

  ghost predicate NoStep(l: Btf, a: Accessor, t: Btf, first: bool, id: Id) {
    forall r: seq<nat>, n: Id :: !OneStep(l, a, t, first, id, r, n)
  }

  /** The raw indices `raw` lead from type `id` through compatible members and elements, one
      for each of the local accessors. */
  ghost predicate Leads(l: Btf, local: seq<Accessor>, t: Btf, first: bool, id: Id, raw: seq<nat>)
    decreases |local|
  {
    if local == [] then raw == []
    else exists n: nat, next: Id ::
        n <= |raw| && OneStep(l, local[0], t, first, id, raw[..n], next)
        && Leads(l, local[1..], t, false, next, raw[n..])
  }

  /** After `i` accessors: what leads on from `id` is what leads all the way after `raw`. */
  ghost predicate OnTrack(l: Btf, local: seq<Accessor>, t: Btf, root: Id, i: nat, first: bool, raw: seq<nat>, id: Id) {
    && i <= |local| && first == (i == 0)
    && (forall s {:trigger Leads(l, local[i..], t, first, id, s)} {:trigger raw + s} ::
          Leads(l, local[i..], t, first, id, s) ==> Leads(l, local, t, true, root, raw + s))
    && (forall x {:trigger Leads(l, local, t, true, root, x)} ::
          Leads(l, local, t, true, root, x) ==> raw <= x && Leads(l, local[i..], t, first, id, x[|raw|..]))
  }

  lemma TrackStarts(l: Btf, local: seq<Accessor>, t: Btf, root: Id)
    ensures OnTrack(l, local, t, root, 0, true, [], root)
  {
    assert local[0..] == local;
    forall s: seq<nat> ensures [] + s == s && s[0..] == s {
    }
  }

  /** What leads on behind the only way on, leads on. */
  lemma LeadsBehind(l: Btf, rest: seq<Accessor>, t: Btf, first: bool, id: Id, p: seq<nat>, next: Id, s: seq<nat>)
    requires rest != [] && OneStep(l, rest[0], t, first, id, p, next) && Leads(l, rest[1..], t, false, next, s)
    ensures Leads(l, rest, t, first, id, p + s)
  {
    hide OneStep;
    assert (p + s)[..|p|] == p && (p + s)[|p|..] == s;
  }

  /** What leads on goes by the only way on. */
  lemma LeadsThrough(l: Btf, rest: seq<Accessor>, t: Btf, first: bool, id: Id, p: seq<nat>, next: Id, y: seq<nat>)
    requires rest != [] && OnlyStep(l, rest[0], t, first, id, p, next) && Leads(l, rest, t, first, id, y)
    ensures p <= y && Leads(l, rest[1..], t, false, next, y[|p|..])
  {
    hide OneStep;
    var n: nat, m: Id :| n <= |y| && OneStep(l, rest[0], t, first, id, y[..n], m)
        && Leads(l, rest[1..], t, false, m, y[n..]);
    assert y[..n] == p && m == next;
  }

  lemma TrackGoesOn(l: Btf, local: seq<Accessor>, t: Btf, root: Id, i: nat, first: bool, raw: seq<nat>, id: Id,
      p: seq<nat>, next: Id)
    requires OnTrack(l, local, t, root, i, first, raw, id) && i < |local|
    requires OnlyStep(l, local[i], t, first, id, p, next)
    ensures OnTrack(l, local, t, root, i + 1, false, raw + p, next)
  {
    hide OneStep, Leads;
    var rest := local[i..];
    assert rest[0] == local[i] && rest[1..] == local[i + 1..];
    forall s | Leads(l, local[i + 1..], t, false, next, s) ensures Leads(l, local, t, true, root, (raw + p) + s) {
      LeadsBehind(l, rest, t, first, id, p, next, s);
      assert raw + (p + s) == (raw + p) + s;
    }
    forall x | Leads(l, local, t, true, root, x)
      ensures raw + p <= x && Leads(l, local[i + 1..], t, false, next, x[|raw + p|..])
    {
      var y := x[|raw|..];
      LeadsThrough(l, rest, t, first, id, p, next, y);
      assert x[|raw + p|..] == y[|p|..];
      assert x == raw + y && y == p + y[|p|..];
    }
  }

  lemma TrackStops(l: Btf, local: seq<Accessor>, t: Btf, root: Id, i: nat, first: bool, raw: seq<nat>, id: Id)
    requires OnTrack(l, local, t, root, i, first, raw, id) && i < |local| && NoStep(l, local[i], t, first, id)
    ensures forall x :: !Leads(l, local, t, true, root, x)
  {
    hide OneStep;
    assert local[i..][0] == local[i];
    assert forall y: seq<nat> :: !Leads(l, local[i..], t, first, id, y);
  }

  lemma TrackEnds(l: Btf, local: seq<Accessor>, t: Btf, root: Id, first: bool, raw: seq<nat>, id: Id)
    requires OnTrack(l, local, t, root, |local|, first, raw, id)
    ensures forall x :: Leads(l, local, t, true, root, x) <==> x == raw
  {
    assert local[|local|..] == [];
    assert Leads(l, [], t, first, id, []);
    assert raw + [] == raw;
    forall x | Leads(l, local, t, true, root, x) ensures x == raw {
      assert Leads(l, [], t, first, id, x[|raw|..]);
      assert x == raw + x[|raw|..];
    }
  }

  /** Two hits of which neither comes first are one. */
  lemma {:induction false} SameHit(q: Query, i: Id, p: seq<nat>, r: seq<nat>)
    requires At(q, i) && IsHit(q, i, p) && IsHit(q, i, r) && !Before(p, r) && !Before(r, p)
    ensures p == r
    decreases |p|
  {
    if MemberName(q.target, i, p[0]) == [] {
      SameHit(q, SkipId(q.target, MembersOf(q.target, i)[p[0]].ty), p[1..], r[1..]);
    }
    assert p == [p[0]] + p[1..] && r == [r[0]] + r[1..];
  }

  /** With no misleading member, a search decides whether there is a way on, and finds it. */
  lemma SearchDecides(l: Btf, a: Accessor, t: Btf, id: Id, v: View, w: View, found: int, next: Id)
    requires a.Field? && id < |t.types| && At(QueryFor(l, a, t), id) && |v.raw| <= MAX_LEN && Clean(l, a, t)
    requires Applied(QueryFor(l, a, t), Search(QueryFor(l, a, t), SkipId(t, id), MAX_LEN - |v.raw|), v, w, found, next)
    ensures found == 1 ==> v.raw <= w.raw && OnlyStep(l, a, t, false, id, w.raw[|v.raw|..], next)
    ensures found == 0 ==> NoStep(l, a, t, false, id)
  {
    hide WfBtf, SearchFrom, IsHit, PlaceOf, Fits, PlainNames, Before, Compatible;
    var q := QueryFor(l, a, t);
    var i := SkipId(t, id);
    SkipTwice(t, id);
    var p := SearchExplained(q, i, 0, MAX_LEN - |v.raw|);
    forall r | IsHit(q, i, r) && Fits(q, i, r) && FirstFrom(q, i, 0, p) ensures r == p {
      assert FirstFrom(q, i, 0, r);
      SameHit(q, i, p, r);
    }
    if found == 1 {
      assert FirstFrom(q, i, 0, p);
      assert w.raw[|v.raw|..] == p;
    } else if found == 0 {
      forall r: seq<nat> | IsHit(q, i, r) ensures !Fits(q, i, r) {
        HitNotEmpty(q, i, r);
        NoMembers(q, i);
      }
    }
  }

  /** An array index is the only way on, if the target is an array and long enough. */
  lemma IndexDecides(l: Btf, a: Accessor, t: Btf, first: bool, id: Id, k: nat)
    requires WfBtf(l) && WfBtf(t) && id < |t.types| && a.Index? && k == a.idx
    ensures var i := SkipId(t, id);
            if first then OnlyStep(l, a, t, first, id, [k], i)
            else if !IsArray(t, i) then NoStep(l, a, t, first, id)
            else t.types[i].data.ArrayData? && t.types[i].data.elem < |t.types| &&
                 if k < t.types[i].data.nelems then OnlyStep(l, a, t, first, id, [k], SkipId(t, t.types[i].data.elem))
                 else NoStep(l, a, t, first, id)
  {
    var i := SkipId(t, id);
    if IsArray(t, i) {
      ArrayElements(t, i);
    }
    hide WfBtf;
  }

  lemma NoMembers(q: Query, i: Id)
    requires At(q, i)
    ensures !Composite(q.target, i) ==> Count(q, i) == 0
  {
  }

  ghost predicate AllClean(l: Btf, local: seq<Accessor>, t: Btf) {
    forall a :: a in local ==> Clean(l, a, t)
  }

  lemma FieldReparses(q: Query, root: Id, v: View, id: Id, w: View, next: Id)
    requires At(q, id) && root < |q.target.types| && v.raw != [] && |v.raw| <= MAX_LEN
    requires FirstFits(q) && PlainNames(q.target) && Reparses(q.target, root, v, id)
    requires Applied(q, Search(q, SkipId(q.target, id), MAX_LEN - |v.raw|), v, w, 1, next)
    ensures Reparses(q.target, root, w, next)
  {
    hide WfBtf, SearchFrom, IsHit, PlaceOf, Walk, ParseSpec, Fits, PlainNames, Reparses;
    var i := SkipId(q.target, id);
    SkipTwice(q.target, id);
    var p := SearchExplained(q, i, 0, MAX_LEN - |v.raw|);
    HitParses(q, id, p);
    ReparsesMore(q.target, root, v, id, p);
  }

  lemma ElementReparses(b: Btf, root: Id, v: View, id: Id, k: nat)
    requires WfBtf(b) && id < |b.types| && root < |b.types| && v.raw != [] && Reparses(b, root, v, id)
    requires IsArray(b, SkipId(b, id)) && b.types[SkipId(b, id)].data.ArrayData?
        && k < b.types[SkipId(b, id)].data.nelems
    requires b.types[SkipId(b, id)].data.elem < |b.types|
        && ResolvedSize(b, SkipId(b, b.types[SkipId(b, id)].data.elem)) >= 0
    ensures var e := SkipId(b, b.types[SkipId(b, id)].data.elem);
            Reparses(b, root, View(v.accs + [Index(e, k)], v.raw + [k], Add32(v.bit, Times(k, ResolvedSize(b, e)) * 8)),
                e)
  {
    hide WfBtf, Walk, ParseSpec, Reparses, ResolvedSize;
    WalkOne(b, id, k);
    ReparsesMore(b, root, v, id, [k]);
  }

  /** `struct bpf_core_spec` */
  class CoreSpec {
    var accs: seq<Accessor>
    var raw: seq<nat>
    var bitOffset: U32

    ghost function Now(): View
      reads this
    {
      View(accs, raw, bitOffset)
    }

    ghost predicate Valid()
      reads this
    {
      |accs| <= |raw| <= MAX_LEN
    }

    constructor ()
      ensures Valid() && Now() == View([], [], 0)
    {
      accs, raw, bitOffset := [], [], 0;
    }

    /** `bpf_core_match_member` */
    method MatchMember(q: Query, targId: Id) returns (found: int, next: Id)
      requires At(q, targId) && Valid()
      modifies this
      ensures Valid() && Applied(q, Search(q, targId, MAX_LEN - old(|raw|)), old(Now()), Now(), found, next)
      decreases MAX_LEN - |raw|, 2
    {
      var i := SkipModsAndTypedefs(q.target, targId);
      hide WfBtf, SkipId, SearchFrom, Compatible;
      if Composite(q.target, i) {
        found, next := MatchMembers(q, i);
      } else {
        NothingApplied(q, Now(), 0);
        found, next := 0, 0;
      }
    }

    /** The loop of `bpf_core_match_member`. */
    method MatchMembers(q: Query, i: Id) returns (found: int, next: Id)
      requires At(q, i) && Valid()
      modifies this
      ensures Valid() && Applied(q, SearchFrom(q, i, 0, MAX_LEN - old(|raw|)), old(Now()), Now(), found, next)
      decreases MAX_LEN - |raw|, 1
    {
      hide At, WfBtf, WfQuery, SearchFrom, Count, Passed, Applied, Tried, MembersOf;
      ghost var room := MAX_LEN - |raw|;
      SearchBegins(q, i, room, Now());
      var n := |MembersOf(q.target, i)|;
      for k := 0 to n
        invariant Valid() && |raw| >= old(|raw|) && Passed(q, i, 0, k, room, old(Now()), Now())
        modifies this
      {
        var done;
        ghost var before := Now();
        done, found, next := TryMember(q, i, k);
        if done {
          SearchDone(q, i, k, old(Now()), before, Now(), found, next);
          return;
        }
        SearchGoesOn(q, i, k, old(Now()), before, Now(), found, next);
      }
      found, next := 0, 0;
      SearchEnds(q, i, room, old(Now()), Now(), next);
    }

    /** One round of the loop of `bpf_core_match_member`. */
    method TryMember(q: Query, i: Id, k: nat) returns (done: bool, found: int, next: Id)
      requires At(q, i) && k < Count(q, i) && Valid()
      modifies this
      ensures Valid() && Tried(q, i, k, old(Now()), Now(), done, found, next)
      decreases MAX_LEN - |raw|, 0
    {
      hide WfBtf, WfQuery, At, SearchFrom, Search, Compatible, Count, RoundIs, Tried, Applied, Add32, Sub32, MembersOf,
          MemberOffset, LocalType;
      done, found, next := true, 0, 0;
      if |raw| == MAX_LEN {
        RoomEnds(q, i, k, Now());
        return true, -E2BIG, 0;
      }
      SearchRound(q, i, k, Now());
      var member, off := MembersOf(q.target, i)[k], MemberOffset(q.target, i, k);
      var targName := MemberName(q.target, i, k);
      bitOffset := Add32(bitOffset, off);
      raw := raw + [k];
      if targName == "" {
        found, next := MatchMember(q, member.ty);
        if found != 0 {
          AnonymousDone(q, i, k, old(Now()), Now(), found, next);
          return;
        }
        AnonymousPassed(q, i, k, old(Now()), Now(), next);
      } else if targName == q.name {
        next := member.ty;
        accs := accs + [Field(i, k, targName)];
        var compat := FieldsAreCompat(q.local, LocalType(q), q.target, member.ty);
        if compat {
          found := 1;
        } else {
          accs := accs[..|accs| - 1];
        }
        NamedDone(q, i, k, old(Now()), Now(), found, next);
        return;
      } else {
        OtherPassed(q, i, k, old(Now()));
      }
      bitOffset := Sub32(bitOffset, off % TWO_32);
      raw := raw[..|raw| - 1];
      done := false;
    }

    /** The element just reached has no size, or one that an `int` cannot hold. */
    ghost predicate Unsized(t: Btf)
      reads this
    {
      accs != [] &&
      var a := accs[|accs| - 1];
      a.Index? && a.ty < |t.types| && !(0 <= ResolvedSize(t, a.ty) < 0x8000_0000)
    }

    /** `bpf_core_spec_match`. A spec that it builds is the one that parsing the target's raw
        indices gives, when the target types cannot mislead the search. */
    method Match(l: Btf, local: seq<Accessor>, t: Btf, targId: Id) returns (r: int)
      requires WfBtf(l) && WfBtf(t) && targId < |t.types| && LocalSpec(l, local, t)
      modifies this
      ensures r <= 1
      ensures r < 0 ==> |raw| == MAX_LEN || Unsized(t)
      ensures MatchRuns(l, local, t, targId, Now(), r)
      ensures r == 1 ==> Valid() && Corresponds(local, accs)
      ensures r == 1 && AllClean(l, local, t) ==> exists id: Id :: Reparses(t, targId, Now(), id)
      ensures r == 1 && AllClean(l, local, t) ==> forall x :: Leads(l, local, t, true, targId, x) <==> x == raw
      ensures r == 0 && AllClean(l, local, t) ==> forall x :: !Leads(l, local, t, true, targId, x)
    {
      hide WfBtf, Reparses, Clean, OnlyStep, NoStep, OnTrack, Leads, Round, Rounds;
      accs, raw, bitOffset := [], [], 0;
      var id: Id := targId;
      Unparsed(t, targId);
      NoRounds(l, local, t, targId);
      TrackStarts(l, local, t, targId);
      for i := 0 to |local|
        invariant Valid() && id < |t.types| && (raw == [] <==> i == 0)
        invariant Corresponds(local[..i], accs) && Rounds(l, local, t, targId, i, Now(), id)
        invariant AllClean(l, local, t) ==>
            Reparses(t, targId, Now(), id) && OnTrack(l, local, t, targId, i, i == 0, raw, id)
        modifies this
      {
        ghost var v, from, before := raw, id, Now();
        r, id := MatchStep(l, local[i], t, i == 0, id, targId);
        assert local[i] in local;
        assert Round(l, local[i], t, IsFirst(i), from, before, Now(), r, id);
        if r != 1 {
          if r == 0 && AllClean(l, local, t) {
            TrackStops(l, local, t, targId, i, i == 0, v, from);
          }
          return;
        }
        if AllClean(l, local, t) {
          assert raw == v + raw[|v|..];
          TrackGoesOn(l, local, t, targId, i, i == 0, v, from, raw[|v|..], id);
        }
        RoundsNext(l, local, t, targId, i, before, from, Now(), id);
        assert local[..i + 1] == local[..i] + [local[i]];
      }
      assert local[..|local|] == local;
      if AllClean(l, local, t) {
        TrackEnds(l, local, t, targId, |local| == 0, raw, id);
      }
      r := 1;
    }

    /** One round of the loop of `bpf_core_spec_match`. */
    method MatchStep(l: Btf, a: Accessor, t: Btf, first: bool, from: Id, ghost root: Id) returns (r: int, next: Id)
      requires WfBtf(l) && WfBtf(t) && from < |t.types| && root < |t.types| && Valid()
      requires a.Field? ==> WfQuery(QueryFor(l, a, t))
      requires first <==> raw == []
      requires first ==> a.Index?
      modifies this
      ensures r <= 1
      ensures Round(l, a, t, first, from, old(Now()), Now(), r, next)
      ensures r < 0 ==> |raw| == MAX_LEN || Unsized(t)
      ensures r == 1 ==> Valid() && raw != [] && next < |t.types|
      ensures r == 1 ==>
          |accs| == |old(accs)| + 1 && accs[..|old(accs)|] == old(accs)
          && SameAccessor(a, accs[|old(accs)|])
      ensures r == 1 && Clean(l, a, t) && Reparses(t, root, old(Now()), from) ==> Reparses(t, root, Now(), next)
      ensures r == 1 && Clean(l, a, t) ==> old(raw) <= raw && OnlyStep(l, a, t, first, from, raw[|old(raw)|..], next)
      ensures r == 0 && Clean(l, a, t) ==> NoStep(l, a, t, first, from)
    {
      hide WfBtf, WfQuery, Reparses, Search, ParseSpec, ResolvedSize, Clean, Times, OnlyStep, NoStep, OneStep,
          ElementRound;
      if a.Field? {
        next := SkipModsAndTypedefs(t, from);
        InTarget(QueryFor(l, a, t), next);
        r, next := MatchMember(QueryFor(l, a, t), next);
        if r == 1 {
          FieldMatched(l, a, t, root, old(Now()), from, Now(), next);
        }
        if Clean(l, a, t) {
          SearchDecides(l, a, t, from, old(Now()), Now(), r, next);
        }
        return;
      }
      r, next := MatchElement(l, a, t, first, from, root);
    }

    /** The round for an index: the first one counts whole objects, the others array elements. */
    method MatchElement(l: Btf, a: Accessor, t: Btf, first: bool, from: Id, ghost root: Id)
        returns (r: int, next: Id)
      requires WfBtf(l) && WfBtf(t) && from < |t.types| && root < |t.types| && Valid()
      requires a.Index? && (first <==> raw == [])
      modifies this
      ensures r <= 1
      ensures ElementRound(l, a, t, first, from, old(Now()), Now(), r, next)
      ensures r < 0 ==> |raw| == MAX_LEN || Unsized(t)
      ensures r == 1 ==> Valid() && raw == old(raw) + [a.idx] && next < |t.types|
      ensures r == 1 ==> accs == old(accs) + [Index(next, a.idx)]
      ensures r == 1 && Reparses(t, root, old(Now()), from) ==> Reparses(t, root, Now(), next)
      ensures r == 1 ==> OnlyStep(l, a, t, first, from, [a.idx], next)
      ensures r == 0 ==> NoStep(l, a, t, first, from)
    {
      hide WfBtf, Reparses, ParseSpec, ResolvedSize, Times, OnlyStep, NoStep, OneStep;
      next := SkipModsAndTypedefs(t, from);
      var elem := next;
      IndexDecides(l, a, t, first, from, a.idx);
      if !first {
        if !IsArray(t, next) {
          return 0, next;
        }
        ArrayElements(t, next);
        if a.idx >= t.types[next].data.nelems {
          return 0, next;
        }
        elem := SkipModsAndTypedefs(t, t.types[next].data.elem);
      }
      TheOnlyStep(l, a, t, first, from, [a.idx], elem);
      if |raw| == MAX_LEN {
        return -E2BIG, elem;
      }
      accs := accs + [Index(elem, a.idx)];
      raw := raw + [a.idx];
      var sz := ResolveSize(t, elem);
      if sz < 0 {
        return sz, elem;
      }
      ResolvedExact(t, elem);
      if sz >= 0x8000_0000 {
        // the size is put into an int
        return sz - TWO_32, elem;
      }
      bitOffset := Add32(bitOffset, Times(a.idx, sz) * 8);
      IndexMatched(t, root, old(Now()), from, Now(), elem, a.idx);
      r, next := 1, elem;
    }

    /** `bpf_core_spec_parse`, after the access string has been read into its indices. */
    method Parse(b: Btf, typeId: Id, indices: seq<nat>) returns (err: int)
      requires WfBtf(b) && typeId < |b.types|
      modifies this
      ensures |indices| > MAX_LEN ==> err == -E2BIG
      ensures |indices| <= MAX_LEN ==> err == (var w := ParseSpec(b, typeId, indices); if w.Failed? then w.err else 0)
      ensures err == 0 ==> Valid() && raw == indices && indices != [] && exists id: Id :: Reparses(b, typeId, Now(), id)
    {
      hide WfBtf, Step, ResolvedSize;
      accs, raw, bitOffset := [], [], 0;
      if indices == [] {
        return -EINVAL;
      }
      if |indices| > MAX_LEN {
        return -E2BIG;
      }
      raw := indices;
      var id: Id := SkipModsAndTypedefs(b, typeId);
      var sz := ResolveSize(b, id);
      if sz < 0 {
        return sz;
      }
      accs, bitOffset := [Index(id, raw[0])], Add32(0, Times(raw[0], sz) * 8);
      FirstParsed(b, typeId, raw[0]);
      assert raw[..1] == [raw[0]];
      hide ParseSpec, Walk, Reparses;
      for i := 1 to |raw|
        invariant raw == indices && 1 <= |accs| <= i && id < |b.types|
        invariant Reparses(b, typeId, View(accs, raw[..i], bitOffset), id)
        modifies this
      {
        ghost var v, from: Id := View(accs, raw[..i], bitOffset), id;
        err, id := ParseStep(b, id, raw[i]);
        assert raw[..i] + raw[i..] == raw && raw[..i + 1] == raw[..i] + [raw[i]];
        if err != 0 {
          ParseFails(b, typeId, v, from, raw[i..]);
          return;
        }
        WalkOne(b, from, raw[i]);
        ReparsesMore(b, typeId, v, from, [raw[i]]);
      }
      assert raw[..|raw|] == raw;
      ParseSucceeds(b, typeId, Now(), id);
      err := 0;
    }

    /** One round of the loop of `bpf_core_spec_parse`. */
    method ParseStep(b: Btf, from: Id, k: nat) returns (err: int, id: Id)
      requires WfBtf(b) && from < |b.types|
      modifies this`accs, this`bitOffset
      ensures var w := Step(b, from, k);
        if w.Failed? then err == w.err != 0
        else
          && err == 0 && id == w.id && accs == old(accs) + w.accs && |w.accs| <= 1
          && bitOffset == Add32(old(bitOffset), w.off)
    {
      err, id := 0, from;
      var i := SkipModsAndTypedefs(b, from);
      if Composite(b, i) {
        if k >= |MembersOf(b, i)| {
          return -EINVAL, from;
        }
        var m := MembersOf(b, i)[k];
        bitOffset := Add32(bitOffset, MemberOffset(b, i, k));
        if m.name != 0 {
          var name := Name(b, m.name);
          if name == "" {
            return -EINVAL, from;
          }
          accs := accs + [Field(i, k, name)];
        }
        id := m.ty;
      } else if IsArray(b, i) {
        ArrayElements(b, i);
        var elem := SkipModsAndTypedefs(b, b.types[i].data.elem);
        if k >= b.types[i].data.nelems {
          return -EINVAL, from;
        }
        accs := accs + [Index(elem, k)];
        var sz := ResolveSize(b, elem);
        if sz < 0 {
          return sz, from;
        }
        bitOffset := Add32(bitOffset, Times(k, sz) * 8);
        id := elem;
      } else {
        return -EINVAL, from;
      }
    }
  }

  lemma InTarget(q: Query, id: Id)
    requires WfQuery(q) && id < |q.target.types|
    ensures At(q, id)
  {
  }

  lemma FieldMatched(l: Btf, a: Accessor, t: Btf, root: Id, v: View, id: Id, w: View, next: Id)
    requires a.Field? && At(QueryFor(l, a, t), id) && root < |t.types| && v.raw != [] && |v.raw| <= MAX_LEN
    requires Applied(QueryFor(l, a, t), Search(QueryFor(l, a, t), SkipId(t, id), MAX_LEN - |v.raw|), v, w, 1, next)
    ensures Clean(l, a, t) && Reparses(t, root, v, id) ==> Reparses(t, root, w, next)
    ensures next < |t.types| && w.raw != [] && |w.accs| == |v.accs| + 1
    ensures w.accs[..|v.accs|] == v.accs && SameAccessor(a, w.accs[|v.accs|])
  {
    hide WfBtf, Reparses, Search, FirstFits;
    if Clean(l, a, t) && Reparses(t, root, v, id) {
      FieldReparses(QueryFor(l, a, t), root, v, id, w, next);
    }
  }

  lemma IndexMatched(b: Btf, root: Id, v: View, id: Id, w: View, e: Id, k: nat)
    requires WfBtf(b) && id < |b.types| && root < |b.types| && e < |b.types| && ResolvedSize(b, e) >= 0
    requires if v.raw == [] then e == SkipId(b, id)
             else
               && IsArray(b, SkipId(b, id)) && b.types[SkipId(b, id)].data.ArrayData?
               && k < b.types[SkipId(b, id)].data.nelems && b.types[SkipId(b, id)].data.elem < |b.types|
               && e == SkipId(b, b.types[SkipId(b, id)].data.elem)
    requires w == View(v.accs + [Index(e, k)], v.raw + [k], Add32(v.bit, Times(k, ResolvedSize(b, e)) * 8))
    ensures Reparses(b, root, v, id) ==> Reparses(b, root, w, e)
  {
    hide WfBtf, ResolvedSize, Times, Walk, ParseSpec;
    if Reparses(b, root, v, id) {
      if v.raw == [] {
        FirstParsed(b, root, k);
        assert [] + [k] == [k] && [] + [Index(e, k)] == [Index(e, k)];
      } else {
        ElementReparses(b, root, v, id, k);
      }
    }
  }

  lemma Unparsed(b: Btf, root: Id)
    requires WfBtf(b) && root < |b.types|
    ensures Reparses(b, root, View([], [], 0), root)
  {
  }

  lemma FirstParsed(b: Btf, root: Id, k: nat)
    requires WfBtf(b) && root < |b.types| && ResolvedSize(b, SkipId(b, root)) >= 0
    ensures var i := SkipId(b, root);
            Reparses(b, root, View([Index(i, k)], [k], Add32(0, Times(k, ResolvedSize(b, i)) * 8)), i)
  {
    hide WfBtf, ResolvedSize, Times;
    var i := SkipId(b, root);
    assert [k][1..] == [];
    assert Walk(b, i, []) == Walked(i, [], 0);
    assert [Index(i, k)] + [] == [Index(i, k)];
  }

  lemma ParseFails(b: Btf, root: Id, v: View, id: Id, rest: seq<nat>)
    requires WfBtf(b) && root < |b.types| && id < |b.types| && v.raw != [] && rest != []
    requires Reparses(b, root, v, id) && Step(b, id, rest[0]).Failed?
    ensures ParseSpec(b, root, v.raw + rest) == Step(b, id, rest[0])
  {
    hide WfBtf, Step, ParseSpec;
    ParseAppend(b, root, v.raw, rest);
  }

  lemma ParseSucceeds(b: Btf, root: Id, v: View, id: Id)
    requires WfBtf(b) && root < |b.types| && v.raw != [] && Reparses(b, root, v, id)
    ensures ParseSpec(b, root, v.raw).Walked?
  {
  }

  lemma AnonymousDone(q: Query, i: Id, k: nat, v: View, w: View, found: int, next: Id)
    requires RoundIs(q, i, k, v) && MemberName(q.target, i, k) == "" && found != 0
    requires Applied(q, Search(q, MembersOf(q.target, i)[k].ty, MAX_LEN - |v.raw| - 1),
        Pushed(v, [k], MemberOffset(q.target, i, k)), w, found, next)
    ensures Tried(q, i, k, v, w, true, found, next)
  {
    hide WfQuery, WfBtf, Search, SearchFrom, Compatible, After, Pushed;
    AppliedAfter(q, Search(q, MembersOf(q.target, i)[k].ty, MAX_LEN - |v.raw| - 1), [k], MemberOffset(q.target, i, k),
        v, w, found, next);
  }

  lemma AnonymousPassed(q: Query, i: Id, k: nat, v: View, w: View, next: Id)
    requires RoundIs(q, i, k, v) && MemberName(q.target, i, k) == ""
    requires Applied(q, Search(q, MembersOf(q.target, i)[k].ty, MAX_LEN - |v.raw| - 1),
        Pushed(v, [k], MemberOffset(q.target, i, k)), w, 0, next)
    ensures |w.raw| > |v.raw| && w.accs == v.accs
        && Tried(q, i, k, v, Popped(w, MemberOffset(q.target, i, k)), false, 0, next)
  {
    hide WfQuery, WfBtf, Search, SearchFrom, Compatible, After;
    var room := MAX_LEN - |v.raw|;
    var o := Search(q, MembersOf(q.target, i)[k].ty, room - 1);
    PoppedMember(v, k, MemberOffset(q.target, i, k), o.raw, o.off);
    assert Left(q, i, k, k + 1, room, v, Popped(w, MemberOffset(q.target, i, k)), AllButLast(k, o.raw), o.off);
  }

  lemma NamedDone(q: Query, i: Id, k: nat, v: View, w: View, found: int, next: Id)
    requires RoundIs(q, i, k, v) && HasName(q, i, k) && next == MembersOf(q.target, i)[k].ty
    requires var compat := Compatible(q.local, LocalType(q), q.target, next);
             var u := Pushed(v, [k], MemberOffset(q.target, i, k));
             found == (if compat then 1 else 0) && w == if compat then u.(accs := v.accs + [Field(i, k, q.name)]) else u
    ensures Tried(q, i, k, v, w, true, found, next)
  {
    hide WfQuery, WfBtf, Search, SearchFrom, Compatible, After, Pushed;
  }

  lemma OtherPassed(q: Query, i: Id, k: nat, v: View)
    requires RoundIs(q, i, k, v)
    requires MemberName(q.target, i, k) != "" && MemberName(q.target, i, k) != q.name
    ensures var off := MemberOffset(q.target, i, k);
            Tried(q, i, k, v, Popped(Pushed(v, [k], off), off), false, 0, 0)
  {
    hide WfQuery, WfBtf, Search, SearchFrom, Compatible, After;
    var room := MAX_LEN - |v.raw|;
    PoppedMember(v, k, MemberOffset(q.target, i, k), [], 0);
    PushedNothing(Pushed(v, [k], MemberOffset(q.target, i, k)));
    AfterNothing(k, SearchFrom(q, i, k + 1, room));
    assert Left(q, i, k, k + 1, room, v,
        Popped(Pushed(v, [k], MemberOffset(q.target, i, k)), MemberOffset(q.target, i, k)), AllButLast(k, []), 0);
  }

  /** What `SearchFrom` makes of member `k`, case by case. */
  ghost predicate RoundIs(q: Query, i: Id, k: nat, v: View) {
    && At(q, i) && k < Count(q, i) && |v.raw| < MAX_LEN
    && At(q, MembersOf(q.target, i)[k].ty) && WfQuery(q) && LocalType(q) < |q.local.types|
    && var (m, off, name) := (MembersOf(q.target, i)[k], MemberOffset(q.target, i, k), MemberName(q.target, i, k));
       var room := MAX_LEN - |v.raw|;
       var r := SearchFrom(q, i, k, room);
       if name == "" then
         var o := Search(q, m.ty, room - 1);
         if o.Missing? then r == After(AllButLast(k, o.raw), o.off, SearchFrom(q, i, k + 1, room - |o.raw|))
         else r == After([k], off, o)
       else if name == q.name then
         r == if Compatible(q.local, LocalType(q), q.target, m.ty) then Found([k], off, i, k, m.ty)
             else Missing([k], off)
       else r == SearchFrom(q, i, k + 1, room)
  }

  lemma RoomEnds(q: Query, i: Id, k: nat, v: View)
    requires At(q, i) && k < Count(q, i) && |v.raw| == MAX_LEN
    ensures Tried(q, i, k, v, v, true, -E2BIG, 0)
  {
  }

  lemma SearchRound(q: Query, i: Id, k: nat, v: View)
    requires At(q, i) && k < Count(q, i) && |v.raw| < MAX_LEN
    ensures RoundIs(q, i, k, v)
    ensures i < |q.target.types| && k < |MembersOf(q.target, i)| && MembersOf(q.target, i)[k].ty < |q.target.types|
    ensures q.ty < |q.local.types| && q.idx < |MembersOf(q.local, q.ty)|
    ensures At(q, MembersOf(q.target, i)[k].ty) && LocalType(q) < |q.local.types| && WfBtf(q.local) && WfBtf(q.target)
  {
    hide WfBtf, Compatible, MemberOffset, After, AllButLast;
    MemberInRange(q.target, i, k);
    MemberInRange(q.local, q.ty, q.idx);
  }

  // ---------------------------------------------------------------- a match against its own types

  /** The last index is one of an element or of a named member. */
  ghost predicate EndsNamed(b: Btf, id: Id, raw: seq<nat>)
    requires WfBtf(b) && id < |b.types|
    decreases |raw|
  {
    raw != [] ==>
      var w := Step(b, id, raw[0]);
      w.Walked? ==> (|raw| == 1 ==> w.accs != []) && EndsNamed(b, w.id, raw[1..])
  }

  /** Members without a name are no arrays, as in C. */
  ghost predicate NoUnnamedArrays(b: Btf)
    requires WfBtf(b)
  {
    forall i: Id, k {:trigger MembersOf(b, i)[k]} ::
      i < |b.types| && 0 <= k < |MembersOf(b, i)| && MembersOf(b, i)[k].name == 0 ==>
        MembersOf(b, i)[k].ty < |b.types| && b.types[SkipId(b, MembersOf(b, i)[k].ty)].info.kind != ARRAY
  }

  /** The types that every relocated field may have. */
  ghost predicate FieldType(b: Btf, i: Id)
    requires WfBtf(b) && i < |b.types|
  {
    var d := b.types[ElementOf(b, i).0];
    d.info.kind in {PTR, ENUM, FWD, STRUCT, UNION} || (d.info.kind == INT && IntOffset(d) == 0)
  }

  /** The named members on a path have such types. */
  ghost predicate FieldTypes(b: Btf, accs: seq<Accessor>)
    requires WfBtf(b)
  {
    forall a :: a in accs && a.Field? ==>
      a.ty < |b.types| && a.idx < |MembersOf(b, a.ty)| && MembersOf(b, a.ty)[a.idx].ty < |b.types|
      && FieldType(b, MembersOf(b, a.ty)[a.idx].ty)
  }

  /** A named member leads on by its own index. */
  lemma OwnMember(b: Btf, id: Id, k: nat)
    requires WfBtf(b) && id < |b.types| && Step(b, id, k).Walked? && Composite(b, SkipId(b, id))
    requires MembersOf(b, SkipId(b, id))[k].name != 0
    requires FieldTypes(b, Step(b, id, k).accs)
    ensures |Step(b, id, k).accs| == 1
    ensures OneStep(b, Step(b, id, k).accs[0], b, false, id, [k], Step(b, id, k).id)
  {
    hide WfBtf, Compatible, ElementOf;
    var i := SkipId(b, id);
    var m := MembersOf(b, i)[k];
    var a := Field(i, k, Name(b, m.name));
    assert Step(b, id, k).accs == [a];
    assert a in Step(b, id, k).accs;
    SelfCompatible(b, m.ty);
    var q := QueryFor(b, a, b);
    assert [k][1..] == [];
    assert WfQuery(q) && IsHit(q, i, [k]) && Fits(q, i, [k]);
  }

  lemma OwnElement(b: Btf, id: Id, k: nat)
    requires WfBtf(b) && id < |b.types| && Step(b, id, k).Walked? && !Composite(b, SkipId(b, id))
    ensures |Step(b, id, k).accs| == 1
    ensures OneStep(b, Step(b, id, k).accs[0], b, false, id, [k], Step(b, id, k).id)
  {
    hide WfBtf;
    ArrayElements(b, SkipId(b, id));
  }

  /** A way on from an unnamed member is one from its owner. */
  lemma OwnUnnamed(b: Btf, a: Accessor, id: Id, k: nat, p: seq<nat>, next: Id)
    requires WfBtf(b) && id < |b.types| && Composite(b, SkipId(b, id)) && k < |MembersOf(b, SkipId(b, id))|
    requires MembersOf(b, SkipId(b, id))[k].name == 0 && MembersOf(b, SkipId(b, id))[k].ty < |b.types|
    requires a.Field? && OneStep(b, a, b, false, MembersOf(b, SkipId(b, id))[k].ty, p, next)
    ensures OneStep(b, a, b, false, id, [k] + p, next)
  {
    hide Compatible;
    var i := SkipId(b, id);
    var q := QueryFor(b, a, b);
    var j := SkipId(b, MembersOf(b, i)[k].ty);
    NoMembers(q, j);
    assert ([k] + p)[0] == k && ([k] + p)[1..] == p;
    assert MemberName(b, i, k) == "";
    hide WfBtf;
    assert IsHit(q, i, [k] + p) && PlaceOf(q, i, [k] + p).next == PlaceOf(q, j, p).next;
  }

  /** A path leads along its own accessors. */
  lemma {:induction false} OwnPathLeads(b: Btf, id: Id, raw: seq<nat>)
    requires WfBtf(b) && id < |b.types| && NoUnnamedArrays(b) && Walk(b, id, raw).Walked? && EndsNamed(b, id, raw)
    requires FieldTypes(b, Walk(b, id, raw).accs)
    ensures Leads(b, Walk(b, id, raw).accs, b, false, id, raw)
    ensures raw != [] ==> Walk(b, id, raw).accs != []
    ensures raw != [] && b.types[SkipId(b, id)].info.kind != ARRAY ==> Walk(b, id, raw).accs[0].Field?
    decreases |raw|
  {
    hide WfBtf, OneStep, Step, EndsNamed, NoUnnamedArrays, FieldType, Leads;
    if raw == [] {
      NowhereLeads(b, id);
    } else {
      var w := Step(b, id, raw[0]);
      var rest := Walk(b, w.id, raw[1..]);
      EndsNamedNext(b, id, raw);
      OwnPathLeads(b, w.id, raw[1..]);
      var i := SkipId(b, id);
      if w.accs == [] {
        UnnamedStep(b, id, raw[0]);
        assert rest.accs == [] + rest.accs;
        LeadsUnnamed(b, rest.accs, id, raw);
      } else {
        NamedStep(b, id, raw[0]);
        LeadsNext(b, w.accs[0], rest.accs, id, raw, w.id);
        assert w.accs + rest.accs == [w.accs[0]] + rest.accs;
      }
    }
  }

  lemma NowhereLeads(b: Btf, id: Id)
    ensures Leads(b, [], b, false, id, [])
  {
  }

  lemma EndsNamedNext(b: Btf, id: Id, raw: seq<nat>)
    requires WfBtf(b) && id < |b.types| && raw != [] && EndsNamed(b, id, raw) && Step(b, id, raw[0]).Walked?
    ensures EndsNamed(b, Step(b, id, raw[0]).id, raw[1..])
    ensures |raw| == 1 ==> Step(b, id, raw[0]).accs != []
  {
    hide WfBtf, Step;
  }

  /** A step without accessor goes into an unnamed member, which is no array. */
  lemma UnnamedStep(b: Btf, id: Id, k: nat)
    requires WfBtf(b) && id < |b.types| && NoUnnamedArrays(b) && Step(b, id, k).Walked? && Step(b, id, k).accs == []
    ensures Composite(b, SkipId(b, id)) && k < |MembersOf(b, SkipId(b, id))|
    ensures MembersOf(b, SkipId(b, id))[k].name == 0 && MembersOf(b, SkipId(b, id))[k].ty == Step(b, id, k).id
    ensures b.types[SkipId(b, Step(b, id, k).id)].info.kind != ARRAY
  {
    hide WfBtf;
  }

  lemma NamedStep(b: Btf, id: Id, k: nat)
    requires WfBtf(b) && id < |b.types| && Step(b, id, k).Walked? && Step(b, id, k).accs != []
    requires FieldTypes(b, Step(b, id, k).accs)
    ensures |Step(b, id, k).accs| == 1
    ensures OneStep(b, Step(b, id, k).accs[0], b, false, id, [k], Step(b, id, k).id)
    ensures b.types[SkipId(b, id)].info.kind != ARRAY ==> Step(b, id, k).accs[0].Field?
  {
    hide WfBtf, OneStep, FieldType;
    if Composite(b, SkipId(b, id)) {
      OwnMember(b, id, k);
    } else {
      OwnElement(b, id, k);
    }
  }

  lemma LeadsNext(b: Btf, a: Accessor, rest: seq<Accessor>, id: Id, raw: seq<nat>, next: Id)
    requires raw != [] && OneStep(b, a, b, false, id, [raw[0]], next) && Leads(b, rest, b, false, next, raw[1..])
    ensures Leads(b, [a] + rest, b, false, id, raw)
  {
    hide OneStep;
    assert ([a] + rest)[0] == a && ([a] + rest)[1..] == rest;
    assert [raw[0]] + raw[1..] == raw;
    LeadsBehind(b, [a] + rest, b, false, id, [raw[0]], next, raw[1..]);
  }

  lemma LeadsUnnamed(b: Btf, accs: seq<Accessor>, id: Id, raw: seq<nat>)
    requires WfBtf(b) && id < |b.types| && raw != [] && accs != [] && accs[0].Field?
    requires Composite(b, SkipId(b, id)) && raw[0] < |MembersOf(b, SkipId(b, id))|
    requires MembersOf(b, SkipId(b, id))[raw[0]].name == 0 && MembersOf(b, SkipId(b, id))[raw[0]].ty < |b.types|
    requires Leads(b, accs, b, false, MembersOf(b, SkipId(b, id))[raw[0]].ty, raw[1..])
    ensures Leads(b, accs, b, false, id, raw)
  {
    hide WfBtf, OneStep;
    var m := MembersOf(b, SkipId(b, id))[raw[0]].ty;
    var n: nat, next: Id :| n <= |raw[1..]| && OneStep(b, accs[0], b, false, m, raw[1..][..n], next)
        && Leads(b, accs[1..], b, false, next, raw[1..][n..]);
    OwnUnnamed(b, accs[0], id, raw[0], raw[1..][..n], next);
    assert raw[..n + 1] == [raw[0]] + raw[1..][..n] && raw[n + 1..] == raw[1..][n..];
  }

  /** The accessors of a path name members as they are called. */
  lemma {:induction false} WalkFields(b: Btf, id: Id, raw: seq<nat>)
    requires WfBtf(b) && id < |b.types| && Walk(b, id, raw).Walked?
    ensures forall a :: a in Walk(b, id, raw).accs && a.Field? ==> WfQuery(QueryFor(b, a, b))
    decreases |raw|
  {
    hide WfBtf, Step, WfQuery;
    if raw != [] {
      var w := Step(b, id, raw[0]);
      WalkFields(b, w.id, raw[1..]);
      StepFields(b, id, raw[0]);
    }
  }

  lemma StepFields(b: Btf, id: Id, k: nat)
    requires WfBtf(b) && id < |b.types| && Step(b, id, k).Walked?
    ensures forall a :: a in Step(b, id, k).accs && a.Field? ==> WfQuery(QueryFor(b, a, b))
  {
    hide WfBtf;
  }

  /** What parsing a local access string gives, and the path it was parsed from. */
  lemma OwnSpecLeads(b: Btf, id: Id, raw: seq<nat>)
    requires WfBtf(b) && id < |b.types| && NoUnnamedArrays(b) && ParseSpec(b, id, raw).Walked?
    requires EndsNamed(b, SkipId(b, id), raw[1..]) && FieldTypes(b, ParseSpec(b, id, raw).accs)
    ensures LocalSpec(b, ParseSpec(b, id, raw).accs, b)
    ensures Leads(b, ParseSpec(b, id, raw).accs, b, true, id, raw)
  {
    hide WfBtf, Walk, Step, FieldType, EndsNamed, NoUnnamedArrays, ResolvedSize, WfQuery;
    var i := SkipId(b, id);
    var w, rest := Element(b, i, raw[0]), Walk(b, i, raw[1..]);
    WalkFields(b, i, raw[1..]);
    OwnPathLeads(b, i, raw[1..]);
    var a := Index(i, raw[0]);
    assert ParseSpec(b, id, raw).accs == [a] + rest.accs;
    hide Leads;
    assert OneStep(b, a, b, true, id, [raw[0]], i);
    assert ([a] + rest.accs)[0] == a && ([a] + rest.accs)[1..] == rest.accs;
    assert [raw[0]] + raw[1..] == raw;
    LeadsBehind(b, [a] + rest.accs, b, true, id, [raw[0]], i, raw[1..]);
  }

  /** How deep structs and unions without a name are nested: `depth` falls from each to those
      inside it. */
  ghost predicate NestsIn(b: Btf, depth: seq<nat>)
    requires WfBtf(b)
  {
    && |depth| == |b.types|
    && forall i: Id, k {:trigger MembersOf(b, i)[k]} ::
         i < |b.types| && 0 <= k < |MembersOf(b, i)| && MemberName(b, i, k) == "" ==>
           MembersOf(b, i)[k].ty < |b.types| && (Composite(b, SkipId(b, MembersOf(b, i)[k].ty)) ==>
             depth[SkipId(b, MembersOf(b, i)[k].ty)] < depth[i])
  }

  /** All members of the wanted name that come from `k` on are compatible. */
  ghost predicate HitsFit(q: Query, i: Id, k: nat)
    requires At(q, i)
  {
    forall r :: HitFrom(q, i, k, r) ==> Fits(q, i, r)
  }

  lemma HitsFitBelow(q: Query, i: Id, k: nat)
    requires At(q, i) && Anonymous(q, i, k) && HitsFit(q, i, k)
    ensures HitsFit(q, Below(q, i, k), 0) && HitsFit(q, i, k + 1)
  {
    hide At, Anonymous, Compatible, IsHit, PlaceOf, Below;
    forall r | HitFrom(q, Below(q, i, k), 0, r) ensures Fits(q, Below(q, i, k), r) {
      HitBelow(q, i, k, r);
      assert HitFrom(q, i, k, [k] + r);
    }
  }

  lemma BelowLies(q: Query, depth: seq<nat>, i: Id, k: nat)
    requires At(q, i) && Anonymous(q, i, k) && NestsIn(q.target, depth)
    ensures depth[Below(q, i, k)] < depth[i]
  {
    hide WfBtf;
  }

  /** With room for the nesting and no incompatible member of the name, a search does not run out
      of room. */
  lemma {:induction false} RoomLeft(q: Query, depth: seq<nat>, i: Id, k: nat, room: nat)
    requires At(q, i) && k <= Count(q, i) && NestsIn(q.target, depth) && depth[i] < room && HitsFit(q, i, k)
    ensures !SearchFrom(q, i, k, room).TooDeep?
    decreases room, Count(q, i) - k
  {
    hide Count, Compatible, SearchFrom, Anonymous, MembersOf, IsHit, PlaceOf, NestsIn, WfBtf, WfQuery, Fits;
    SomeRoom(q, depth, i, room);
    if k == Count(q, i) {
      NothingLeft(q, i, k, room);
    } else if Anonymous(q, i, k) {
      RoomBelow(q, depth, i, k, room);
      RoomLeft(q, depth, Below(q, i, k), 0, room - 1);
      EmptyHanded(q, Below(q, i, k), room - 1);
      RoomLeft(q, depth, i, k + 1, room);
      DescendsOrGoesOn(q, i, k, room);
    } else if !HasName(q, i, k) {
      RoomLeft(q, depth, i, k + 1, room);
      SteppedOver(q, i, k, room);
    } else {
      NamedEnds(q, i, k, room);
    }
  }

  lemma SomeRoom(q: Query, depth: seq<nat>, i: Id, room: nat)
    requires At(q, i) && NestsIn(q.target, depth) && depth[i] < room
    ensures room > 0
  {
  }

  lemma NothingLeft(q: Query, i: Id, k: nat, room: nat)
    requires At(q, i) && k == Count(q, i)
    ensures !SearchFrom(q, i, k, room).TooDeep?
  {
  }

  lemma RoomBelow(q: Query, depth: seq<nat>, i: Id, k: nat, room: nat)
    requires At(q, i) && Anonymous(q, i, k) && NestsIn(q.target, depth) && depth[i] < room && HitsFit(q, i, k)
    ensures room > 0 && depth[Below(q, i, k)] < room - 1
    ensures HitsFit(q, Below(q, i, k), 0) && HitsFit(q, i, k + 1) && k < Count(q, i)
  {
    HitsFitBelow(q, i, k);
    BelowLies(q, depth, i, k);
    hide WfBtf, WfQuery, HitsFit, NestsIn, Below;
  }

  /** Without incompatible hits a search that misses has left nothing behind. */
  lemma EmptyHanded(q: Query, i: Id, room: nat)
    requires At(q, i) && HitsFit(q, i, 0)
    ensures SearchFrom(q, i, 0, room).Missing? ==> SearchFrom(q, i, 0, room).raw == []
  {
    hide WfBtf, WfQuery, SearchFrom, IsHit, Fits, Before;
    var p := SearchExplained(q, i, 0, room);
  }

  lemma DescendsOrGoesOn(q: Query, i: Id, k: nat, room: nat)
    requires At(q, i) && Anonymous(q, i, k) && room > 0 && k < Count(q, i)
    requires var o := SearchFrom(q, Below(q, i, k), 0, room - 1); !o.TooDeep? && (o.Missing? ==> o.raw == [])
    requires !SearchFrom(q, i, k + 1, room).TooDeep?
    ensures !SearchFrom(q, i, k, room).TooDeep?
  {
    SearchDescends(q, i, k, room);
    hide WfBtf, WfQuery, SearchFrom, Below, Anonymous, MemberOffset;
  }

  lemma NamedEnds(q: Query, i: Id, k: nat, room: nat)
    requires At(q, i) && k < Count(q, i) && HasName(q, i, k) && room > 0
    ensures !SearchFrom(q, i, k, room).TooDeep?
  {
    hide WfBtf, Search, Compatible;
  }

  /** A round for a field keeps to the only way on. */
  lemma FieldRoundTrack(l: Btf, a: Accessor, t: Btf, first: bool, id: Id, v: View, w: View, next: Id)
    requires a.Field? && Round(l, a, t, first, id, v, w, 1, next) && Clean(l, a, t)
    ensures v.raw <= w.raw && OnlyStep(l, a, t, first, id, w.raw[|v.raw|..], next)
  {
    hide WfBtf, Search, Applied, Clean;
    var q := QueryFor(l, a, t);
    InTarget(q, id);
    SearchDecides(l, a, t, id, v, w, 1, next);
    FirstIsSame(l, a, t, id, w.raw[|v.raw|..], next);
  }

  lemma FirstIsSame(l: Btf, a: Accessor, t: Btf, id: Id, p: seq<nat>, next: Id)
    requires a.Field?
    ensures OnlyStep(l, a, t, true, id, p, next) <==> OnlyStep(l, a, t, false, id, p, next)
  {
    hide IsHit, PlaceOf, Fits, WfQuery, WfBtf, SkipId;
    assert forall r: seq<nat>, n: Id :: OneStep(l, a, t, true, id, r, n) <==> OneStep(l, a, t, false, id, r, n);
  }

  lemma IndexRoundTrack(l: Btf, a: Accessor, t: Btf, first: bool, id: Id, v: View, w: View, next: Id)
    requires a.Index? && Round(l, a, t, first, id, v, w, 1, next)
    ensures v.raw <= w.raw && OnlyStep(l, a, t, first, id, w.raw[|v.raw|..], next)
  {
    IndexDecides(l, a, t, first, id, a.idx);
    hide WfBtf, ResolvedSize, OneStep;
    assert w.raw[|v.raw|..] == [a.idx];
  }

  /** The rounds of a match keep to what leads on. */
  lemma {:induction false} RoundsTrack(l: Btf, local: seq<Accessor>, t: Btf, root: Id, n: nat, v: View, id: Id)
    requires Rounds(l, local, t, root, n, v, id) && n <= |local| && AllClean(l, local, t)
    ensures OnTrack(l, local, t, root, n, n == 0, v.raw, id)
  {
    hide Round, OnTrack, Clean, OnlyStep;
    if n == 0 {
      TrackStarts(l, local, t, root);
    } else {
      var m := n - 1;
      var u: View, from: Id :| Rounds(l, local, t, root, m, u, from)
          && Round(l, local[m], t, IsFirst(m), from, u, v, 1, id);
      RoundsTrack(l, local, t, root, m, u, from);
      assert local[m] in local;
      if local[m].Field? {
        FieldRoundTrack(l, local[m], t, IsFirst(m), from, u, v, id);
      } else {
        IndexRoundTrack(l, local[m], t, IsFirst(m), from, u, v, id);
      }
      assert v.raw == u.raw + v.raw[|u.raw|..];
      TrackGoesOn(l, local, t, root, m, m == 0, u.raw, from, v.raw[|u.raw|..], id);
    }
  }

  /** Where a path leads on, a round has a way on. */
  lemma WayOn(l: Btf, local: seq<Accessor>, t: Btf, root: Id, n: nat, v: View, id: Id, x: seq<nat>)
      returns (p: seq<nat>, next: Id)
    requires Rounds(l, local, t, root, n, v, id) && n < |local| && AllClean(l, local, t)
    requires Leads(l, local, t, true, root, x)
    ensures OneStep(l, local[n], t, n == 0, id, p, next) && |v.raw| + |p| <= |x|
  {
    hide OneStep, Leads;
    RoundsTrack(l, local, t, root, n, v, id);
    var y := x[|v.raw|..];
    assert local[n..][0] == local[n];
    p, next := FirstPart(l, local[n..], t, n == 0, id, y);
  }

  lemma FirstPart(l: Btf, rest: seq<Accessor>, t: Btf, first: bool, id: Id, y: seq<nat>)
      returns (p: seq<nat>, next: Id)
    requires rest != [] && Leads(l, rest, t, first, id, y)
    ensures OneStep(l, rest[0], t, first, id, p, next) && |p| <= |y|
  {
    hide OneStep;
    var k: nat, m: Id :| k <= |y| && OneStep(l, rest[0], t, first, id, y[..k], m)
        && Leads(l, rest[1..], t, false, m, y[k..]);
    p, next := y[..k], m;
  }

  /** Array elements have a size that an `int` can hold. */
  ghost predicate SizedElements(b: Btf)
    requires WfBtf(b)
  {
    forall i: Id {:trigger IsArray(b, i)} :: i < |b.types| && IsArray(b, i) ==>
      b.types[i].data.ArrayData? && b.types[i].data.elem < |b.types|
      && 0 <= ResolvedSize(b, SkipId(b, b.types[i].data.elem)) < 0x8000_0000
  }

  /** The room that a match against the same types leaves to every search. */
  ghost predicate Roomy(b: Btf, n: nat)
    requires WfBtf(b)
  {
    exists depth: seq<nat> :: NestsIn(b, depth) && forall i :: 0 <= i < |depth| ==> depth[i] + n <= MAX_LEN
  }

  /** No round of such a match stops. */
  lemma FieldGoesOn(b: Btf, a: Accessor, first: bool, id: Id, v: View, w: View, r: int, next: Id, p: seq<nat>, to: Id,
      len: nat)
    requires WfBtf(b) && a.Field? && Round(b, a, b, first, id, v, w, r, next) && Clean(b, a, b)
    requires WfQuery(QueryFor(b, a, b)) && UniqueHits(QueryFor(b, a, b))
    requires OneStep(b, a, b, first, id, p, to) && |v.raw| + |p| <= len && Roomy(b, len)
    ensures r == 1
  {
    hide Applied, Clean, UniqueHits, WfBtf, WfQuery, Search, OneStep, NestsIn, HitsFit;
    var q, i := QueryFor(b, a, b), SkipId(b, id);
    FieldRoundInRange(b, a, first, id, v, w, r, next);
    InTarget(q, id);
    OneStepFits(b, a, first, id, p, to);
    var depth: seq<nat> :| NestsIn(b, depth) && forall i :: 0 <= i < |depth| ==> depth[i] + len <= MAX_LEN;
    DepthAt(b, depth, i, len);
    SearchHasRoom(q, depth, id, MAX_LEN - |v.raw|);
    FieldOutcome(q, Search(q, i, MAX_LEN - |v.raw|), v, w, r, next);
    if r == 0 {
      SearchDecides(b, a, b, id, v, w, r, next);
      StepIsSame(b, a, first, id, p, to);
      NoneButOne(b, a, id, p, to);
    }
  }

  lemma DepthAt(b: Btf, depth: seq<nat>, i: Id, len: nat)
    requires WfBtf(b) && i < |b.types| && NestsIn(b, depth) && forall i :: 0 <= i < |depth| ==>
        depth[i] + len <= MAX_LEN
    ensures i < |depth| && depth[i] + len <= MAX_LEN
  {
    hide WfBtf;
  }

  lemma FieldRoundInRange(b: Btf, a: Accessor, first: bool, id: Id, v: View, w: View, r: int, next: Id)
    requires a.Field? && Round(b, a, b, first, id, v, w, r, next)
    ensures WfBtf(b) && id < |b.types| && |v.raw| <= MAX_LEN && At(QueryFor(b, a, b), SkipId(b, id))
    ensures Applied(QueryFor(b, a, b), Search(QueryFor(b, a, b), SkipId(b, id), MAX_LEN - |v.raw|), v, w, r, next)
  {
    hide WfBtf, WfQuery, Search, Applied;
  }

  lemma NoneButOne(b: Btf, a: Accessor, id: Id, p: seq<nat>, to: Id)
    requires NoStep(b, a, b, false, id)
    ensures !OneStep(b, a, b, false, id, p, to)
  {
    hide OneStep;
  }

  lemma StepIsSame(b: Btf, a: Accessor, first: bool, id: Id, p: seq<nat>, to: Id)
    requires a.Field? && OneStep(b, a, b, first, id, p, to)
    ensures OneStep(b, a, b, false, id, p, to)
  {
  }

  lemma OneStepFits(b: Btf, a: Accessor, first: bool, id: Id, p: seq<nat>, to: Id)
    requires WfBtf(b) && id < |b.types| && a.Field? && OneStep(b, a, b, first, id, p, to)
    requires WfQuery(QueryFor(b, a, b)) && UniqueHits(QueryFor(b, a, b))
    ensures At(QueryFor(b, a, b), SkipId(b, id)) && HitsFit(QueryFor(b, a, b), SkipId(b, id), 0) && p != []
  {
    hide WfBtf, PlaceOf, Fits;
    HitNotEmpty(QueryFor(b, a, b), SkipId(b, id), p);
  }

  lemma SearchHasRoom(q: Query, depth: seq<nat>, id: Id, room: nat)
    requires At(q, id) && At(q, SkipId(q.target, id)) && NestsIn(q.target, depth) && HitsFit(q, SkipId(q.target, id), 0)
    requires depth[SkipId(q.target, id)] < room
    ensures !Search(q, SkipId(q.target, id), room).TooDeep?
  {
    hide WfBtf, SearchFrom, HitsFit, NestsIn;
    SkipTwice(q.target, id);
    RoomLeft(q, depth, SkipId(q.target, id), 0, room);
  }

  lemma FieldOutcome(q: Query, o: Outcome, v: View, w: View, r: int, next: Id)
    requires Applied(q, o, v, w, r, next) && !o.TooDeep?
    ensures r == 1 || r == 0
  {
  }

  lemma ElementGoesOn(b: Btf, a: Accessor, first: bool, id: Id, v: View, w: View, r: int, next: Id, p: seq<nat>,
      to: Id, len: nat)
    requires WfBtf(b) && id < |b.types| && a.Index? && Round(b, a, b, first, id, v, w, r, next)
    requires OneStep(b, a, b, first, id, p, to) && |v.raw| + |p| <= len <= MAX_LEN && SizedElements(b)
    requires first ==> 0 <= ResolvedSize(b, SkipId(b, id)) < 0x8000_0000
    ensures r == 1
  {
    hide WfBtf, ResolvedSize;
  }

  /** All that a match of a parsed spec against its own types needs: names are unique, fields have
      the types that fields may have, sizes fit, and the path leaves room for the nesting. */
  ghost predicate MatchesItself(b: Btf, id: Id, raw: seq<nat>) {
    && WfBtf(b) && id < |b.types| && ParseSpec(b, id, raw).Walked?
    && NoUnnamedArrays(b) && PlainNames(b) && SizedElements(b) && Roomy(b, |raw|)
    && 0 <= ResolvedSize(b, SkipId(b, id)) < 0x8000_0000
    && EndsNamed(b, SkipId(b, id), raw[1..]) && FieldTypes(b, ParseSpec(b, id, raw).accs)
    && forall a :: a in ParseSpec(b, id, raw).accs && a.Field? ==>
         WfQuery(QueryFor(b, a, b)) && UniqueHits(QueryFor(b, a, b))
  }

  lemma AccessorsClean(b: Btf, id: Id, raw: seq<nat>)
    requires MatchesItself(b, id, raw)
    ensures AllClean(b, ParseSpec(b, id, raw).accs, b)
  {
    var accs := ParseSpec(b, id, raw).accs;
    hide WfBtf, Walk, ParseSpec, UniqueHits, WfQuery, FirstFits, PlainNames;
    forall a | a in accs ensures Clean(b, a, b) {
      if a.Field? {
        UniqueHitsFit(QueryFor(b, a, b));
      }
    }
  }

  /** Such a match goes through all its rounds. */
  lemma OwnMatchRuns(b: Btf, id: Id, raw: seq<nat>, w: View, r: int)
    requires MatchesItself(b, id, raw) && MatchRuns(b, ParseSpec(b, id, raw).accs, b, id, w, r)
    ensures r == 1
  {
    var accs := ParseSpec(b, id, raw).accs;
    AccessorsClean(b, id, raw);
    OwnSpecLeads(b, id, raw);
    hide WfBtf, Walk, ParseSpec, UniqueHits, WfQuery, Clean, Round, Rounds, Leads, OneStep, SizedElements, NestsIn,
        PlainNames, ResolvedSize, EndsNamed, NoUnnamedArrays, FieldTypes;
    if r != 1 {
      var n: nat, v: View, from: Id, next: Id :| n < |accs| && Rounds(b, accs, b, id, n, v, from)
          && Round(b, accs[n], b, IsFirst(n), from, v, w, r, next);
      var p, to := WayOn(b, accs, b, id, n, v, from, raw);
      assert accs[n] in accs;
      RoomyLen(b, |raw|);
      if accs[n].Field? {
        FieldGoesOn(b, accs[n], IsFirst(n), from, v, w, r, next, p, to, |raw|);
      } else {
        StartsAt(b, accs, id, n, v, from);
        OneStepInRange(b, accs[n], IsFirst(n), from, p, to);
        ElementGoesOn(b, accs[n], IsFirst(n), from, v, w, r, next, p, to, |raw|);
      }
    }
  }

  lemma RoomyLen(b: Btf, n: nat)
    requires WfBtf(b) && Roomy(b, n) && |b.types| > 0
    ensures n <= MAX_LEN
  {
    hide WfBtf;
    var depth: seq<nat> :| NestsIn(b, depth) && forall i :: 0 <= i < |depth| ==> depth[i] + n <= MAX_LEN;
    assert depth[0] + n <= MAX_LEN;
  }

  lemma StartsAt(b: Btf, accs: seq<Accessor>, id: Id, n: nat, v: View, from: Id)
    requires Rounds(b, accs, b, id, n, v, from)
    ensures n == 0 ==> from == id
  {
  }

  lemma OneStepInRange(b: Btf, a: Accessor, first: bool, id: Id, p: seq<nat>, to: Id)
    requires OneStep(b, a, b, first, id, p, to)
    ensures id < |b.types|
  {
  }

  /** A parsed spec matches its own types: the match finds the same raw indices, accessors and
      bit offset. */
  method MatchItself(b: Btf, id: Id, indices: seq<nat>) returns (r: int, local: CoreSpec, found: CoreSpec)
    requires MatchesItself(b, id, indices)
    ensures r == 1 && found.raw == local.raw == indices && found.accs == local.accs
    ensures found.bitOffset == local.bitOffset
  {
    OwnSpecLeads(b, id, indices);
    AccessorsClean(b, id, indices);
    RoomyLen(b, |indices|);
    hide WfBtf, MatchesItself, ParseSpec, MatchRuns, LocalSpec, Leads, Corresponds, AllClean;
    local := new CoreSpec();
    var err := local.Parse(b, id, indices);
    ParsedAccessors(b, id, indices, local.Now());
    found := new CoreSpec();
    r := found.Match(b, local.accs, b, id);
    OwnMatchRuns(b, id, indices, found.Now(), r);
    ParsedAccessors(b, id, indices, found.Now());
  }

  lemma ParsedAccessors(b: Btf, id: Id, raw: seq<nat>, v: View)
    requires WfBtf(b) && id < |b.types| && ParseSpec(b, id, raw).Walked?
    ensures raw != []
    ensures v.raw == raw && (exists to: Id :: Reparses(b, id, v, to)) ==>
        v.accs == ParseSpec(b, id, raw).accs && v.bit == ParseSpec(b, id, raw).off % TWO_32
  {
    hide WfBtf, Walk;
  }

  // ---------------------------------------------------------------- an ambiguous target

  /** struct t { struct { int *x; }; int x; }, and a local struct l { int x; }. */
  function Ambiguous(): Btf {
    Btf([ VOID_DESC,
          Desc(0, Info(INT, 0, false, 0), 4, IntData(32)),
          Desc(0, Info(PTR, 0, false, 0), 1, NoData),
          Desc(0, Info(STRUCT, 1, false, 0), 8, Members([Member(1, 2, 0)])),
          Desc(2, Info(STRUCT, 2, false, 0), 16, Members([Member(0, 3, 0), Member(1, 1, 64)])),
          Desc(3, Info(STRUCT, 1, false, 0), 4, Members([Member(1, 1, 0)])) ],
        off => if off == 1 then "x" else if off == 2 then "t" else if off == 3 then "l" else "")
  }

  lemma AmbiguousWf()
    ensures WfBtf(Ambiguous())
  {
    hide *;
    AmbiguousGrounded();
    AmbiguousMembers();
    ParticularWf(Ambiguous(), [0, 0, 0, 0, 0, 0]);
  }

  lemma ParticularWf(b: Btf, rank: seq<nat>)
    requires Grounded(b.types, rank) && b.str(0) == ""
    requires forall i: Id, k {:trigger MembersOf(b, i)[k]} :: i < |b.types| && 0 <= k < |MembersOf(b, i)| ==>
        MembersOf(b, i)[k].ty < |b.types|
    ensures WfBtf(b)
  {
  }

  lemma AmbiguousGrounded()
    ensures Grounded(Ambiguous().types, [0, 0, 0, 0, 0, 0])
  {
  }

  lemma AmbiguousMembers()
    ensures var b := Ambiguous();
      && |b.types| == 6 && b.str(0) == ""
      && forall i: Id, k {:trigger MembersOf(b, i)[k]} :: i < |b.types| && 0 <= k < |MembersOf(b, i)| ==>
          MembersOf(b, i)[k].ty < |b.types|
    ensures var b := Ambiguous();
      && Composite(b, 3) && Composite(b, 4) && !Composite(b, 1) && !Composite(b, 2)
      && MembersOf(b, 3) == [Member(1, 2, 0)] && MembersOf(b, 4) == [Member(0, 3, 0), Member(1, 1, 64)]
          && MembersOf(b, 5) == [Member(1, 1, 0)]
  {
  }

  function AmbiguousQuery(): Query { Query(Ambiguous(), 5, 0, "x", Ambiguous()) }

  lemma AmbiguousAt()
    ensures At(AmbiguousQuery(), 4) && At(AmbiguousQuery(), 3)
  {
    AmbiguousWf();
    AmbiguousMembers();
    hide WfBtf;
  }

  /** The search passes the incompatible member `x` of the anonymous struct without undoing
      it: the member found at last is the right one, but the raw indices left in the spec do
      not lead there, nor anywhere. */
  lemma AmbiguousMisleads()
    ensures At(AmbiguousQuery(), 4)
    ensures var q := AmbiguousQuery();
      && Search(q, 4, MAX_LEN - 1) == Found([0, 1], 64, 4, 1, 1)
      && IsHit(q, 4, [1]) && PlaceOf(q, 4, [1]) == Place(4, 1, 1, 64)
      && Walk(Ambiguous(), 4, [1]).Walked? && Walk(Ambiguous(), 4, [0, 1]).Failed?
  {
    hide *;
    AmbiguousAt();
    AmbiguousSearch();
    AmbiguousHit();
    AmbiguousWalks();
  }

  lemma AmbiguousSearch()
    ensures At(AmbiguousQuery(), 4)
    ensures Search(AmbiguousQuery(), 4, MAX_LEN - 1) == Found([0, 1], 64, 4, 1, 1)
  {
    AmbiguousAt();
    AmbiguousBelow();
    hide WfBtf, IsHit, PlaceOf, Walk, Step;
    var q := AmbiguousQuery();
    assert SearchFrom(q, 4, 1, 62) == Found([1], 64, 4, 1, 1);
    assert [0] + [1] == [0, 1];
  }

  lemma AmbiguousBelow()
    ensures At(AmbiguousQuery(), 3) && Search(AmbiguousQuery(), 3, 62) == Missing([0], 0)
  {
    AmbiguousAt();
    hide WfBtf, IsHit, PlaceOf, Walk, Step;
  }

  lemma AmbiguousHit()
    ensures At(AmbiguousQuery(), 4)
    ensures IsHit(AmbiguousQuery(), 4, [1]) && PlaceOf(AmbiguousQuery(), 4, [1]) == Place(4, 1, 1, 64)
  {
    hide WfBtf, Search, Walk, Step;
    AmbiguousAt();
    assert [1][1..] == [];
  }

  lemma AmbiguousWalks()
    ensures WfBtf(Ambiguous()) && 4 < |Ambiguous().types|
    ensures Walk(Ambiguous(), 4, [1]).Walked? && Walk(Ambiguous(), 4, [0, 1]).Failed?
  {
    hide WfBtf, Search, IsHit, PlaceOf;
    AmbiguousWf();
    var b := Ambiguous();
    assert [0, 1][1..] == [1];
    WalkOne(b, 4, 1);
    assert Step(b, 4, 1).Walked? && Step(b, 4, 0).Walked? && Step(b, 4, 0).id == 3 && Step(b, 3, 1).Failed?;
  }

  /** The local access string "0:0" for `struct l`. */
  function AmbiguousLocal(): seq<Accessor> { [Index(5, 0), Field(5, 0, "x")] }

  lemma AmbiguousFacts()
    ensures WfBtf(Ambiguous()) && |Ambiguous().types| == 6 && SkipId(Ambiguous(), 4) == 4
    ensures ResolvedSize(Ambiguous(), 4) == 16
    ensures LocalSpec(Ambiguous(), AmbiguousLocal(), Ambiguous())
    ensures |AmbiguousLocal()| == 2 && AmbiguousLocal()[0] == Index(5, 0) && AmbiguousLocal()[1] == Field(5, 0, "x")
    ensures QueryFor(Ambiguous(), Field(5, 0, "x"), Ambiguous()) == AmbiguousQuery()
  {
    AmbiguousWf();
    AmbiguousMembers();
    hide WfBtf;
  }

  lemma AmbiguousFirst(w: View, r: int, next: Id)
    requires Round(Ambiguous(), Index(5, 0), Ambiguous(), true, 4, View([], [], 0), w, r, next)
    ensures r == 1 && w.raw == [0] && next == 4
  {
    AmbiguousFacts();
    hide Ambiguous, WfBtf, ResolvedSize, SkipId;
    assert OneStep(Ambiguous(), Index(5, 0), Ambiguous(), true, 4, [0], 4);
  }

  lemma AmbiguousSecond(v: View, w: View, r: int, next: Id)
    requires Round(Ambiguous(), Field(5, 0, "x"), Ambiguous(), false, 4, v, w, r, next) && v.raw == [0]
    ensures r == 1 && w.raw == [0, 0, 1]
  {
    AmbiguousFacts();
    AmbiguousMisleads();
    hide Ambiguous, WfBtf, ResolvedSize, SkipId, Search, IsHit, PlaceOf, Walk, At;
    assert [0] + [0, 1] == [0, 0, 1];
  }

  lemma AmbiguousAfterOne(v: View, id: Id)
    requires Rounds(Ambiguous(), AmbiguousLocal(), Ambiguous(), 4, 1, v, id)
    ensures v.raw == [0] && id == 4
  {
    AmbiguousFacts();
    hide Ambiguous, AmbiguousLocal, WfBtf, ResolvedSize, SkipId, Round;
    var u: View, from: Id :| Rounds(Ambiguous(), AmbiguousLocal(), Ambiguous(), 4, 0, u, from)
        && Round(Ambiguous(), AmbiguousLocal()[0], Ambiguous(), IsFirst(0), from, u, v, 1, id);
    AmbiguousFirst(v, 1, id);
  }

  lemma AmbiguousAfterTwo(w: View, id: Id)
    requires Rounds(Ambiguous(), AmbiguousLocal(), Ambiguous(), 4, 2, w, id)
    ensures w.raw == [0, 0, 1]
  {
    AmbiguousFacts();
    hide Ambiguous, AmbiguousLocal, WfBtf, ResolvedSize, SkipId, Round;
    var u: View, from: Id :| Rounds(Ambiguous(), AmbiguousLocal(), Ambiguous(), 4, 1, u, from)
        && Round(Ambiguous(), AmbiguousLocal()[1], Ambiguous(), IsFirst(1), from, u, w, 1, id);
    AmbiguousAfterOne(u, from);
    AmbiguousSecond(u, w, 1, id);
  }

  lemma AmbiguousRuns(w: View, r: int)
    requires MatchRuns(Ambiguous(), AmbiguousLocal(), Ambiguous(), 4, w, r)
    ensures r == 1 && w.raw == [0, 0, 1]
  {
    AmbiguousFacts();
    hide Ambiguous, AmbiguousLocal, WfBtf, ResolvedSize, SkipId, Round;
    if r == 1 {
      var id: Id :| Rounds(Ambiguous(), AmbiguousLocal(), Ambiguous(), 4, 2, w, id);
      AmbiguousAfterTwo(w, id);
    } else {
      var n: nat, v: View, id: Id, next: Id :| n < 2 && Rounds(Ambiguous(), AmbiguousLocal(), Ambiguous(), 4, n, v, id)
          && Round(Ambiguous(), AmbiguousLocal()[n], Ambiguous(), IsFirst(n), id, v, w, r, next);
      if n == 0 {
        AmbiguousFirst(w, r, next);
      } else {
        AmbiguousAfterOne(v, id);
        AmbiguousSecond(v, w, r, next);
      }
    }
  }

  lemma AmbiguousParses()
    ensures WfBtf(Ambiguous()) && 4 < |Ambiguous().types|
    ensures ParseSpec(Ambiguous(), 4, [0, 0, 1]).Failed? && ParseSpec(Ambiguous(), 4, [0, 1]).Walked?
  {
    AmbiguousFacts();
    AmbiguousWalks();
    hide Ambiguous, WfBtf, ResolvedSize, SkipId, Walk;
    assert [0, 0, 1][1..] == [0, 1] && [0, 1][1..] == [1];
  }

  /** A match of that access string: it is reported as found, but its raw spec does not parse; the
      path to the member that was found does. */
  method AmbiguousMatch() returns (r: int, raw: seq<nat>)
    ensures WfBtf(Ambiguous()) && 4 < |Ambiguous().types| && r == 1 && raw == [0, 0, 1]
    ensures ParseSpec(Ambiguous(), 4, raw).Failed? && ParseSpec(Ambiguous(), 4, [0, 1]).Walked?
  {
    AmbiguousFacts();
    AmbiguousParses();
    hide Ambiguous, AmbiguousLocal, WfBtf, ParseSpec, MatchRuns, LocalSpec, Reparses, Leads, Clean, Corresponds;
    var spec := new CoreSpec();
    r := spec.Match(Ambiguous(), AmbiguousLocal(), Ambiguous(), 4);
    AmbiguousRuns(spec.Now(), r);
    raw := spec.raw;
  }
}
