/** BTF type descriptors (include/uapi/linux/btf.h) and the comparisons and signature
    hashes that deduplication runs on them (btf.c).

    A descriptor refers to other descriptors by type id. `Refs` lists those ids in the
    order the graph walks visit them, `WithRefs` puts other ids in their place, and
    `Shape` is everything that is left when they are blanked out. */
module BtfTypes {
  import opened Words

  type Id = nat

  const MAX_NR_TYPES: nat := 0x7fff_ffff

  datatype Kind =
    | VOID | INT | PTR | ARRAY | STRUCT | UNION | ENUM | FWD | TYPEDEF
    | VOLATILE | CONST | RESTRICT | FUNC | FUNC_PROTO | VAR | DATASEC

  /** `btf_type.info`: `unused` stands for the bits no macro reads. */
  datatype Info = Info(kind: Kind, vlen: nat, kflag: bool, unused: nat)

  datatype Member = Member(name: nat, ty: Id, offset: nat)
  datatype Enumerator = Enumerator(name: nat, val: int)
  datatype Param = Param(name: nat, ty: Id)
  datatype SecInfo = SecInfo(ty: Id, offset: nat, size: nat)

  /** The data that follows `struct btf_type`. */
  datatype Data =
    | NoData
    | IntData(encoding: nat)
    | ArrayData(elem: Id, index: Id, nelems: nat)
    | VarData(linkage: nat)
    | Members(members: seq<Member>)
    | Enumerators(enumerators: seq<Enumerator>)
    | Params(params: seq<Param>)
    | SecInfos(secinfos: seq<SecInfo>)

  /** `struct btf_type` and its data; `word` is the union of `size` and `type`. */
  datatype Desc = Desc(name: nat, info: Info, word: nat, data: Data)

  const VOID_DESC := Desc(0, Info(VOID, 0, false, 0), 0, NoData)

  predicate IsComposite(k: Kind) { k == STRUCT || k == UNION }

  /** The kinds whose `word` is a type id, and nothing follows. */
  predicate IsLink(k: Kind) {
    k == CONST || k == VOLATILE || k == RESTRICT || k == PTR || k == TYPEDEF || k == FUNC
  }

  predicate IsMod(k: Kind) { k == VOLATILE || k == CONST || k == RESTRICT }

  /** The kinds the reference pass deduplicates. */
  predicate IsRefKind(k: Kind) { IsLink(k) || k == ARRAY || k == FUNC_PROTO }

  /** The kinds the primitive pass deduplicates. */
  predicate IsPrimKind(k: Kind) { k == INT || k == ENUM || k == FWD }

  /** The kinds whose descriptors are compared as a whole. */
  predicate IsValueKind(k: Kind) { IsPrimKind(k) || IsRefKind(k) }

  /** The kinds that are deduplicated at all: not void, VAR and DATASEC. */
  predicate IsDedupKind(k: Kind) { IsValueKind(k) || IsComposite(k) }

  predicate IsEnumFwd(d: Desc) { d.info.kind == ENUM && d.info.vlen == 0 }

  /** The descriptors that may later be resolved to a full definition. */
  predicate FwdLike(d: Desc) { d.info.kind == FWD || IsEnumFwd(d) }

  /** The composite kind a forward declaration announces. */
  function FwdKind(d: Desc): Kind { if d.info.kflag then UNION else STRUCT }

  predicate WellFormed(d: Desc) {
    match d.info.kind
    case VOID => d.data == NoData
    case INT => d.data.IntData?
    case ARRAY => d.data.ArrayData?
    case STRUCT => d.data.Members? && |d.data.members| == d.info.vlen
    case UNION => d.data.Members? && |d.data.members| == d.info.vlen
    case ENUM => d.data.Enumerators? && |d.data.enumerators| == d.info.vlen
    case FWD => d.data == NoData && d.word == 0
    case FUNC_PROTO => d.data.Params? && |d.data.params| == d.info.vlen
    case VAR => d.data.VarData?
    case DATASEC => d.data.SecInfos? && |d.data.secinfos| == d.info.vlen
    case _ => d.data == NoData
  }

  /** The type that a link or an array leads to. */
  function NextId(d: Desc): Id { if d.data.ArrayData? then d.data.elem else d.word }

  function MembersIn(d: Desc): seq<Member> { if d.data.Members? then d.data.members else [] }

  function ParamsOf(d: Desc): seq<Param> { if d.data.Params? then d.data.params else [] }

  // ---------------------------------------------------------------- references and shapes

  predicate WordIsRef(k: Kind) { IsLink(k) || k == FUNC_PROTO || k == VAR }

  function DataRefs(data: Data): seq<Id> {
    match data
    case ArrayData(elem, index, _) => [index, elem]
    case Members(ms) => seq(|ms|, i requires 0 <= i < |ms| => ms[i].ty)
    case Params(ps) => seq(|ps|, i requires 0 <= i < |ps| => ps[i].ty)
    case SecInfos(ss) => seq(|ss|, i requires 0 <= i < |ss| => ss[i].ty)
    case _ => []
  }

  function WithDataRefs(data: Data, rs: seq<Id>): Data
    requires |rs| == |DataRefs(data)|
  {
    match data
    case ArrayData(_, _, n) => ArrayData(rs[1], rs[0], n)
    case Members(ms) => Members(seq(|ms|, i requires 0 <= i < |ms| => ms[i].(ty := rs[i])))
    case Params(ps) => Params(seq(|ps|, i requires 0 <= i < |ps| => ps[i].(ty := rs[i])))
    case SecInfos(ss) => SecInfos(seq(|ss|, i requires 0 <= i < |ss| => ss[i].(ty := rs[i])))
    case _ => data
  }

  /** The referenced ids, in the order in which the equivalence check visits them. */
  function Refs(d: Desc): seq<Id> {
    (if WordIsRef(d.info.kind) then [d.word] else []) + DataRefs(d.data)
  }

  function WithRefs(d: Desc, rs: seq<Id>): Desc
    requires |rs| == |Refs(d)|
  {
    if WordIsRef(d.info.kind) then d.(word := rs[0], data := WithDataRefs(d.data, rs[1..]))
    else d.(data := WithDataRefs(d.data, rs))
  }

  /** One reference rewritten in place. */
  function SetRef(d: Desc, k: nat, r: Id): Desc
    requires k < |Refs(d)|
  {
    WithRefs(d, Refs(d)[k := r])
  }

  function Zeros(n: nat): seq<Id> { seq(n, _ => 0) }

  /** Everything but the referenced ids. */
  function Shape(d: Desc): Desc { WithRefs(d, Zeros(|Refs(d)|)) }

  lemma WithDataRefsLaws(data: Data, rs: seq<Id>)
    requires |rs| == |DataRefs(data)|
    ensures DataRefs(WithDataRefs(data, rs)) == rs
    ensures forall qs: seq<Id> :: |qs| == |rs| ==> WithDataRefs(WithDataRefs(data, rs), qs) == WithDataRefs(data, qs)
  {
  }

  lemma WithOwnDataRefs(data: Data)
    ensures WithDataRefs(data, DataRefs(data)) == data
  {
  }

  lemma WithRefsLaws(d: Desc, rs: seq<Id>, qs: seq<Id>)
    requires |rs| == |Refs(d)| == |qs|
    ensures Refs(WithRefs(d, rs)) == rs
    ensures WithRefs(WithRefs(d, rs), qs) == WithRefs(d, qs)
  {
    if WordIsRef(d.info.kind) {
      WithDataRefsLaws(d.data, rs[1..]);
    } else {
      WithDataRefsLaws(d.data, rs);
    }
  }

  lemma WithOwnRefs(d: Desc)
    ensures WithRefs(d, Refs(d)) == d
  {
    WithOwnDataRefs(d.data);
  }

  /** Rewriting references keeps the shape, the header and well-formedness. */
  lemma WithRefsKeepsShape(d: Desc, rs: seq<Id>)
    requires |rs| == |Refs(d)|
    ensures Shape(WithRefs(d, rs)) == Shape(d)
    ensures WithRefs(d, rs).name == d.name && WithRefs(d, rs).info == d.info
    ensures WellFormed(d) ==> WellFormed(WithRefs(d, rs))
  {
    hide WellFormed, WithDataRefs, DataRefs;
    WithRefsLaws(d, rs, Zeros(|rs|));
    if WellFormed(d) {
      WithRefsWellFormed(d, rs);
    }
  }

  lemma WithRefsWellFormed(d: Desc, rs: seq<Id>)
    requires |rs| == |Refs(d)| && WellFormed(d)
    ensures WellFormed(WithRefs(d, rs))
  {
    var data := WithDataRefs(d.data, if WordIsRef(d.info.kind) then rs[1..] else rs);
    assert data.Members? <==> d.data.Members?;
    assert WithRefs(d, rs).info == d.info;
  }

  /** A descriptor is its shape together with its references. */
  lemma ShapeAndRefs(d: Desc, e: Desc)
    requires Shape(d) == Shape(e)
    ensures |Refs(d)| == |Refs(e)|
    ensures d.name == e.name && d.info == e.info
    ensures Refs(d) == Refs(e) ==> d == e
  {
    WithRefsLaws(d, Zeros(|Refs(d)|), Refs(d));
    WithRefsLaws(e, Zeros(|Refs(e)|), Refs(e));
    WithOwnRefs(d);
    WithOwnRefs(e);
  }

  // ---------------------------------------------------------------- comparisons

  /** `btf_equal_common` */
  predicate EqualCommon(t1: Desc, t2: Desc) {
    t1.name == t2.name && t1.info == t2.info && t1.word == t2.word
  }

  /** `btf_equal_int` */
  predicate EqualInt(t1: Desc, t2: Desc)
    requires t1.info.kind == INT && WellFormed(t1) && WellFormed(t2)
  {
    EqualCommon(t1, t2) && t1.data.encoding == t2.data.encoding
  }

  /** What `btf_equal_enum` decides. */
  predicate EnumsEqual(t1: Desc, t2: Desc)
    requires t1.info.kind == ENUM && WellFormed(t1) && WellFormed(t2)
  {
    EqualCommon(t1, t2) && t1.data.enumerators == t2.data.enumerators
  }

  method EqualEnum(t1: Desc, t2: Desc) returns (eq: bool)
    requires t1.info.kind == ENUM && WellFormed(t1) && WellFormed(t2)
    ensures eq <==> EnumsEqual(t1, t2)
  {
    if !EqualCommon(t1, t2) {
      return false;
    }
    for i := 0 to t1.info.vlen
      invariant t1.data.enumerators[..i] == t2.data.enumerators[..i]
    {
      if t1.data.enumerators[i].name != t2.data.enumerators[i].name
          || t1.data.enumerators[i].val != t2.data.enumerators[i].val {
        assert t1.data.enumerators[i] != t2.data.enumerators[i];
        return false;
      }
    }
    assert t1.data.enumerators[..t1.info.vlen] == t1.data.enumerators;
    assert t2.data.enumerators[..t1.info.vlen] == t2.data.enumerators;
    return true;
  }

  /** What `btf_compat_enum` decides: `vlen` is ignored when either side is a forward enum. */
  predicate EnumsCompatible(t1: Desc, t2: Desc)
    requires t1.info.kind == ENUM && WellFormed(t1) && WellFormed(t2)
  {
    if !IsEnumFwd(t1) && !IsEnumFwd(t2) then EnumsEqual(t1, t2)
    else t1.name == t2.name && t1.info.(vlen := 0) == t2.info.(vlen := 0) && t1.word == t2.word
  }

  method CompatEnum(t1: Desc, t2: Desc) returns (eq: bool)
    requires t1.info.kind == ENUM && WellFormed(t1) && WellFormed(t2)
    ensures eq <==> EnumsCompatible(t1, t2)
  {
    if !IsEnumFwd(t1) && !IsEnumFwd(t2) {
      eq := EqualEnum(t1, t2);
      return;
    }
    return t1.name == t2.name && t1.info.(vlen := 0) == t2.info.(vlen := 0) && t1.word == t2.word;
  }

  /** What `btf_shallow_equal_struct` decides: all but the member types. */
  predicate StructsShallowEqual(t1: Desc, t2: Desc)
    requires IsComposite(t1.info.kind) && WellFormed(t1) && WellFormed(t2)
  {
    && EqualCommon(t1, t2)
    && forall i {:trigger t1.data.members[i]} {:trigger t2.data.members[i]} :: 0 <= i < t1.info.vlen ==>
         t1.data.members[i].name == t2.data.members[i].name && t1.data.members[i].offset == t2.data.members[i].offset
  }

  method ShallowEqualStruct(t1: Desc, t2: Desc) returns (eq: bool)
    requires IsComposite(t1.info.kind) && WellFormed(t1) && WellFormed(t2)
    ensures eq <==> StructsShallowEqual(t1, t2)
  {
    if !EqualCommon(t1, t2) {
      return false;
    }
    for i := 0 to t1.info.vlen
      invariant forall k :: 0 <= k < i ==>
        t1.data.members[k].name == t2.data.members[k].name && t1.data.members[k].offset == t2.data.members[k].offset
    {
      if t1.data.members[i].name != t2.data.members[i].name || t1.data.members[i].offset != t2.data.members[i].offset {
        return false;
      }
    }
    return true;
  }

  /** `btf_compat_array` */
  predicate CompatArray(t1: Desc, t2: Desc)
    requires t1.info.kind == ARRAY && WellFormed(t1) && WellFormed(t2)
  {
    EqualCommon(t1, t2) && t1.data.nelems == t2.data.nelems
  }

  /** `btf_equal_array` */
  predicate EqualArray(t1: Desc, t2: Desc)
    requires t1.info.kind == ARRAY && WellFormed(t1) && WellFormed(t2)
  {
    && EqualCommon(t1, t2)
    && t1.data.elem == t2.data.elem && t1.data.index == t2.data.index && t1.data.nelems == t2.data.nelems
  }

  /** What `btf_compat_fnproto` decides: names and the count, not the types. */
  predicate FnProtosCompatible(t1: Desc, t2: Desc)
    requires t1.info.kind == FUNC_PROTO && WellFormed(t1) && WellFormed(t2)
  {
    && t1.name == t2.name && t1.info == t2.info
    && forall i {:trigger t1.data.params[i]} {:trigger t2.data.params[i]} :: 0 <= i < t1.info.vlen ==>
        t1.data.params[i].name == t2.data.params[i].name
  }

  method CompatFnProto(t1: Desc, t2: Desc) returns (eq: bool)
    requires t1.info.kind == FUNC_PROTO && WellFormed(t1) && WellFormed(t2)
    ensures eq <==> FnProtosCompatible(t1, t2)
  {
    if t1.name != t2.name || t1.info != t2.info {
      return false;
    }
    for i := 0 to t1.info.vlen
      invariant forall k :: 0 <= k < i ==> t1.data.params[k].name == t2.data.params[k].name
    {
      if t1.data.params[i].name != t2.data.params[i].name {
        return false;
      }
    }
    return true;
  }

  /** What `btf_equal_fnproto` decides. */
  predicate FnProtosEqual(t1: Desc, t2: Desc)
    requires t1.info.kind == FUNC_PROTO && WellFormed(t1) && WellFormed(t2)
  {
    EqualCommon(t1, t2) && t1.data.params == t2.data.params
  }

  method EqualFnProto(t1: Desc, t2: Desc) returns (eq: bool)
    requires t1.info.kind == FUNC_PROTO && WellFormed(t1) && WellFormed(t2)
    ensures eq <==> FnProtosEqual(t1, t2)
  {
    if !EqualCommon(t1, t2) {
      return false;
    }
    for i := 0 to t1.info.vlen
      invariant t1.data.params[..i] == t2.data.params[..i]
    {
      if t1.data.params[i].name != t2.data.params[i].name || t1.data.params[i].ty != t2.data.params[i].ty {
        assert t1.data.params[i] != t2.data.params[i];
        return false;
      }
    }
    assert t1.data.params[..t1.info.vlen] == t1.data.params;
    assert t2.data.params[..t1.info.vlen] == t2.data.params;
    return true;
  }

  // ---------------------------------------------------------------- signature hashes

  /** `hash_combine`, in 64-bit arithmetic that wraps. */
  function HashCombine(h: nat, value: int): nat { (h * 31 + value) % TWO_64 }

  /** The `info` word as the hashes see it; any injection of the fields will do. */
  function InfoWord(info: Info): nat {
    var kind := KindNumber(info.kind);
    info.vlen + 0x1_0000 * (info.unused + 0x8000 * (2 * kind + (if info.kflag then 1 else 0)))
  }

  function KindNumber(k: Kind): nat {
    match k
    case VOID => 0 case INT => 1 case PTR => 2 case ARRAY => 3 case STRUCT => 4 case UNION => 5
    case ENUM => 6 case FWD => 7 case TYPEDEF => 8 case VOLATILE => 9 case CONST => 10
    case RESTRICT => 11 case FUNC => 12 case FUNC_PROTO => 13 case VAR => 14 case DATASEC => 15
  }

  /** `btf_hash_common` */
  function HashCommon(t: Desc): nat {
    HashCombine(HashCombine(HashCombine(0, t.name), InfoWord(t.info)), t.word)
  }

  /** Folding a list of values into a hash. */
  function HashValues(h: nat, values: seq<int>): nat {
    if values == [] then h else HashCombine(HashValues(h, values[..|values| - 1]), values[|values| - 1])
  }

  function MemberValues(ms: seq<Member>): seq<int> {
    if ms == [] then [] else MemberValues(ms[..|ms| - 1]) + [ms[|ms| - 1].name, ms[|ms| - 1].offset]
  }

  function ParamValues(ps: seq<Param>): seq<int> {
    if ps == [] then [] else ParamValues(ps[..|ps| - 1]) + [ps[|ps| - 1].name, ps[|ps| - 1].ty]
  }

  /** The signature each kind is filed under in the dedup table. */
  function Signature(t: Desc): nat
    requires WellFormed(t)
  {
    match t.info.kind
    case INT => HashCombine(HashCommon(t), t.data.encoding)
    case ENUM => HashCombine(HashCombine(HashCombine(0, t.name), InfoWord(t.info.(vlen := 0))), t.word)
    case STRUCT => HashValues(HashCommon(t), MemberValues(t.data.members))
    case UNION => HashValues(HashCommon(t), MemberValues(t.data.members))
    case ARRAY => HashCombine(HashCombine(HashCombine(HashCommon(t), t.data.elem), t.data.index), t.data.nelems)
    case FUNC_PROTO => HashValues(HashCommon(t), ParamValues(t.data.params))
    case _ => HashCommon(t)
  }

  /** The signature of a struct covers no more than shallow equality compares. */
  lemma ShallowSignature(t1: Desc, t2: Desc)
    requires IsComposite(t1.info.kind) && WellFormed(t1) && WellFormed(t2) && StructsShallowEqual(t1, t2)
    ensures Signature(t1) == Signature(t2)
  {
    SameMemberValues(t1.data.members, t2.data.members);
  }

  lemma {:induction false} SameMemberValues(a: seq<Member>, b: seq<Member>)
    requires |a| == |b| && forall i {:trigger a[i]} {:trigger b[i]} :: 0 <= i < |a| ==>
        a[i].name == b[i].name && a[i].offset == b[i].offset
    ensures MemberValues(a) == MemberValues(b)
  {
    if a != [] {
      SameMemberValues(a[..|a| - 1], b[..|b| - 1]);
    }
  }

  lemma HashTwoMore(h: nat, values: seq<int>, a: int, b: int)
    ensures HashValues(h, values + [a, b]) == HashCombine(HashCombine(HashValues(h, values), a), b)
  {
    hide HashCombine;
    var v := values + [a, b];
    assert v[..|v| - 1] == values + [a];
    assert (values + [a])[..|values|] == values;
  }

  /** `btf_hash_struct` */
  method HashStruct(t: Desc) returns (h: nat)
    requires IsComposite(t.info.kind) && WellFormed(t)
    ensures h == Signature(t)
  {
    hide HashCombine, InfoWord;
    h := HashCommon(t);
    for i := 0 to t.info.vlen
      invariant h == HashValues(HashCommon(t), MemberValues(t.data.members[..i]))
    {
      h := HashCombine(h, t.data.members[i].name);
      h := HashCombine(h, t.data.members[i].offset);
      assert t.data.members[..i + 1][..i] == t.data.members[..i];
      HashTwoMore(HashCommon(t), MemberValues(t.data.members[..i]), t.data.members[i].name, t.data.members[i].offset);
    }
    assert t.data.members[..t.info.vlen] == t.data.members;
  }

  /** `btf_hash_fnproto` */
  method HashFnProto(t: Desc) returns (h: nat)
    requires t.info.kind == FUNC_PROTO && WellFormed(t)
    ensures h == Signature(t)
  {
    hide HashCombine, InfoWord;
    h := HashCommon(t);
    for i := 0 to t.info.vlen
      invariant h == HashValues(HashCommon(t), ParamValues(t.data.params[..i]))
    {
      h := HashCombine(h, t.data.params[i].name);
      h := HashCombine(h, t.data.params[i].ty);
      assert t.data.params[..i + 1][..i] == t.data.params[..i];
      HashTwoMore(HashCommon(t), ParamValues(t.data.params[..i]), t.data.params[i].name, t.data.params[i].ty);
    }
    assert t.data.params[..t.info.vlen] == t.data.params;
  }

  // ---------------------------------------------------------------- equality of values

  /** The comparison a pass uses on a primitive or reference type: full equality, because
      equal headers have the same kind. */
  method EqualValue(t: Desc, cand: Desc) returns (eq: bool)
    requires IsValueKind(t.info.kind) && WellFormed(t) && WellFormed(cand)
    ensures eq <==> t == cand
  {
    match t.info.kind
    case INT => eq := EqualInt(t, cand);
    case ENUM => eq := EqualEnum(t, cand);
    case ARRAY => eq := EqualArray(t, cand);
    case FUNC_PROTO => eq := EqualFnProto(t, cand);
    case _ => eq := EqualCommon(t, cand);
  }

  /** The hash a pass files a primitive or reference type under. */
  method HashValue(t: Desc) returns (h: nat)
    requires IsValueKind(t.info.kind) && WellFormed(t)
    ensures h == Signature(t)
  {
    hide HashCombine, InfoWord;
    match t.info.kind
    case INT => h := HashCombine(HashCommon(t), t.data.encoding);
    case ENUM => h := HashCombine(HashCombine(HashCombine(0, t.name), InfoWord(t.info.(vlen := 0))), t.word);
    case ARRAY => h := HashCombine(HashCombine(HashCombine(HashCommon(t), t.data.elem), t.data.index), t.data.nelems);
    case FUNC_PROTO => h := HashFnProto(t);
    case _ => h := HashCommon(t);
  }
}
