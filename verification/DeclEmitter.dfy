/** Printing a declaration from the type graph (btf_dump.c): the chain of types is pushed on
    a stack that all nested declarations share, and then printed from its top. */
module DeclEmitter {
  import opened BtfTypes
  import opened TypeGraph
  import opened BtfLookup
  import D = Declarators

  /** The kinds through which a declaration goes on to another type. */
  predicate GoesOn(k: Kind) {
    k == PTR || k == VOLATILE || k == CONST || k == RESTRICT || k == FUNC_PROTO || k == ARRAY
  }

  /** The kinds that end a chain. */
  predicate Ends(k: Kind) { k == INT || k == ENUM || k == FWD || IsComposite(k) || k == TYPEDEF }

  /** No declaration goes through itself without a name in between: the ranks fall from a
      type to the types its declaration is made of. */
  ghost predicate Printable(b: Btf, rank: seq<nat>) {
    && |rank| == |b.types| > 0 && b.types[0].info.kind == VOID
    && (forall i {:trigger b.types[i].info.kind} :: 0 <= i < |rank| && GoesOn(b.types[i].info.kind) ==>
          NextId(b.types[i]) < |rank| && rank[NextId(b.types[i])] < rank[i])
    && (forall i {:trigger b.types[i].data} :: 0 <= i < |rank| ==>
        (b.types[i].info.kind == ARRAY <==> b.types[i].data.ArrayData?))
    && forall i, k {:trigger ParamsOf(b.types[i])[k]} :: 0 <= i < |rank| && 0 <= k < |ParamsOf(b.types[i])| ==>
         ParamsOf(b.types[i])[k].ty < |rank| && rank[ParamsOf(b.types[i])[k].ty] < rank[i]
  }

  // ---------------------------------------------------------------- the chain of a type

  function QualOf(k: Kind): D.Qual {
    if k == CONST then D.Const else if k == VOLATILE then D.Volatile else D.Restrict
  }

  /** A single parameter of type void stands for none, a last one for an ellipsis. */
  function FixedParams(ps: seq<Param>): (n: nat)
    ensures n <= |ps|
  {
    if ps != [] && ps[|ps| - 1].ty == 0 then |ps| - 1 else |ps|
  }

  predicate Variadic(ps: seq<Param>) { |ps| >= 2 && ps[|ps| - 1].ty == 0 }

  ghost function LayerOf(b: Btf, rank: seq<nat>, id: Id): D.Layer
    requires Printable(b, rank) && id < |rank|
    decreases rank[id], 0
  {
    var d := b.types[id];
    if id == 0 || Ends(d.info.kind) then D.LBase(id)
    else if d.info.kind == PTR then D.LPtr
    else if IsMod(d.info.kind) then D.LQual(QualOf(d.info.kind))
    else if d.info.kind == ARRAY then D.LArr(d.data.nelems)
    else if d.info.kind == FUNC_PROTO then D.LFun(ParsOf(b, rank, id, FixedParams(ParamsOf(d))), Variadic(ParamsOf(d)))
    else D.LOther
  }

  ghost function ParsOf(b: Btf, rank: seq<nat>, id: Id, n: nat): (ps: seq<D.Par>)
    requires Printable(b, rank) && id < |rank| && n <= |ParamsOf(b.types[id])|
    ensures |ps| == n
    decreases rank[id], 0, n
  {
    if n == 0 then []
    else
      var p := ParamsOf(b.types[id])[n - 1];
      ParsOf(b, rank, id, n - 1) + [D.Par(Name(b, p.name), LayersOf(b, rank, p.ty))]
  }

  /** The chain of a declaration, from its base outward. */
  ghost function LayersOf(b: Btf, rank: seq<nat>, id: Id): seq<D.Layer>
    requires Printable(b, rank) && id < |rank|
    decreases rank[id], 1
  {
    var k := b.types[id].info.kind;
    (if id != 0 && GoesOn(k) then LayersOf(b, rank, NextId(b.types[id])) else []) + [LayerOf(b, rank, id)]
  }

  ghost predicate InRange(rank: seq<nat>, ids: seq<Id>) { forall k :: 0 <= k < |ids| ==> ids[k] < |rank| }

  /** A stack of ids, read from its top. */
  ghost function StackLayers(b: Btf, rank: seq<nat>, ids: seq<Id>): (ls: seq<D.Layer>)
    requires Printable(b, rank) && InRange(rank, ids)
    ensures |ls| == |ids|
  {
    if ids == [] then []
    else [LayerOf(b, rank, ids[|ids| - 1])] + StackLayers(b, rank, ids[..|ids| - 1])
  }

  lemma {:induction false} StackAt(b: Btf, rank: seq<nat>, ids: seq<Id>, k: nat)
    requires Printable(b, rank) && InRange(rank, ids) && k <= |ids|
    ensures StackLayers(b, rank, ids)[k..] == StackLayers(b, rank, ids[..|ids| - k])
    ensures k < |ids| ==> StackLayers(b, rank, ids)[k] == LayerOf(b, rank, ids[|ids| - 1 - k])
  {
    hide Printable, LayerOf;
    if k > 0 {
      var below := ids[..|ids| - 1];
      StackAt(b, rank, below, k - 1);
      assert below[..|below| - (k - 1)] == ids[..|ids| - k];
      assert StackLayers(b, rank, ids)[k..] == StackLayers(b, rank, below)[k - 1..];
    } else {
      assert ids[..|ids|] == ids;
    }
  }

  /** The conventions for void parameters leave nothing ambiguous: an ellipsis always follows
      a parameter, and a parameter list that reads as (void) is never printed. */
  lemma VoidConventions(b: Btf, rank: seq<nat>, id: Id)
    requires Printable(b, rank) && id < |rank|
    ensures var ps := ParamsOf(b.types[id]);
      var pars := ParsOf(b, rank, id, FixedParams(ps));
      if Variadic(ps) then pars != [] else !D.LoneVoid(pars)
  {
    hide Printable, LayersOf, LayerOf, ParsOf;
    IdKnown(b, rank, id);
    var ps := ParamsOf(b.types[id]);
    if FixedParams(ps) == 1 && !Variadic(ps) {
      OneParam(b, rank, id);
      LayersOfType(b, rank, ps[0].ty);
    }
  }

  lemma IdKnown(b: Btf, rank: seq<nat>, id: Id)
    requires Printable(b, rank) && id < |rank|
    ensures id < |b.types|
  {
  }

  lemma LayersOfType(b: Btf, rank: seq<nat>, id: Id)
    requires Printable(b, rank) && id < |rank| && id != 0
    ensures LayersOf(b, rank, id) != [D.LBase(0)]
  {
    var ls := LayersOf(b, rank, id);
    assert ls[|ls| - 1] == LayerOf(b, rank, id) != D.LBase(0);
  }

  lemma OneParam(b: Btf, rank: seq<nat>, id: Id)
    requires Printable(b, rank) && id < |rank| && |ParamsOf(b.types[id])| > 0
    ensures var p := ParamsOf(b.types[id])[0];
      p.ty < |rank| && ParsOf(b, rank, id, 1) == [D.Par(Name(b, p.name), LayersOf(b, rank, p.ty))]
  {
    hide LayersOf, LayerOf;
    assert ParsOf(b, rank, id, 0) == [];
  }

  // ---------------------------------------------------------------- what a type id declares

  /** The declaration that type `id` stands for under a name, kind by kind. */
  ghost function Declared(b: Btf, rank: seq<nat>, id: Id, name: string): D.Decl
    requires Printable(b, rank) && id < |rank|
    decreases rank[id], 1
  {
    var d := b.types[id];
    match d.info.kind
    case PTR =>
      var t := Declared(b, rank, d.word, name);
      t.(mods := t.mods + [D.MPtr({})])
    case CONST => D.Qualified(Declared(b, rank, d.word, name), D.Const)
    case VOLATILE => D.Qualified(Declared(b, rank, d.word, name), D.Volatile)
    case RESTRICT => D.Qualified(Declared(b, rank, d.word, name), D.Restrict)
    case ARRAY =>
      var t := Declared(b, rank, d.data.elem, name);
      t.(mods := t.mods + [D.MArr(d.data.nelems)])
    case FUNC_PROTO =>
      var (t, ps) := (Declared(b, rank, d.word, name), ParamsOf(d));
      if ps == [] || ps[|ps| - 1].ty != 0 then
        t.(mods := t.mods + [D.MFun(DeclaredParams(b, rank, id, |ps|), false)])
      else if |ps| == 1 then t.(mods := t.mods + [D.MFun([], false)])
      else t.(mods := t.mods + [D.MFun(DeclaredParams(b, rank, id, |ps| - 1), true)])
    case _ => D.Decl(name, id, {}, [])
  }

  /** The first `n` parameters of a prototype. */
  ghost function DeclaredParams(b: Btf, rank: seq<nat>, id: Id, n: nat): (ds: seq<D.Decl>)
    requires Printable(b, rank) && id < |rank| && n <= |ParamsOf(b.types[id])|
    ensures |ds| == n
    ensures forall k {:trigger ds[k]} :: 0 <= k < n ==>
        ParamsOf(b.types[id])[k].ty < |rank|
        && ds[k] == Declared(b, rank, ParamsOf(b.types[id])[k].ty, b.str(ParamsOf(b.types[id])[k].name))
    decreases rank[id], 0, n
  {
    if n == 0 then []
    else
      var p := ParamsOf(b.types[id])[n - 1];
      DeclaredParams(b, rank, id, n - 1) + [Declared(b, rank, p.ty, b.str(p.name))]
  }

  /** The types that C can declare: nothing returns an array or a function, no array has functions
      as elements, no qualifier applies to a function, and the same of all parameters. */
  ghost predicate Declarable(b: Btf, rank: seq<nat>, id: Id)
    requires Printable(b, rank) && id < |rank|
    decreases rank[id], 1
  {
    var d := b.types[id];
    match d.info.kind
    case PTR => Declarable(b, rank, d.word)
    case CONST | VOLATILE | RESTRICT => Declarable(b, rank, d.word) && b.types[d.word].info.kind != FUNC_PROTO
    case ARRAY => Declarable(b, rank, d.data.elem) && b.types[d.data.elem].info.kind != FUNC_PROTO
    case FUNC_PROTO =>
      && Declarable(b, rank, d.word) && b.types[d.word].info.kind != FUNC_PROTO
      && UnqualifiedKind(b, rank, d.word) != ARRAY
      && forall k {:trigger ParamsOf(d)[k]} ::
          0 <= k < |ParamsOf(d)| && (k == |ParamsOf(d)| - 1 ==> ParamsOf(d)[k].ty != 0) ==>
           Declarable(b, rank, ParamsOf(d)[k].ty)
    case INT | ENUM | FWD | STRUCT | UNION | TYPEDEF => true
    case VOID => id == 0
    case FUNC | VAR | DATASEC => false
  }

  ghost function UnqualifiedKind(b: Btf, rank: seq<nat>, id: Id): Kind
    requires Printable(b, rank) && id < |rank|
    decreases rank[id]
  {
    var d := b.types[id];
    if d.info.kind in {CONST, VOLATILE, RESTRICT} then UnqualifiedKind(b, rank, d.word) else d.info.kind
  }

  /** The last layer of a chain tells the kind, and the last but for qualifiers the kind behind
      qualifiers. */
  lemma {:induction false} LastLayer(b: Btf, rank: seq<nat>, id: Id)
    requires Printable(b, rank) && id < |rank| && Declarable(b, rank, id)
    ensures var ls := LayersOf(b, rank, id);
      && ls != [] && ls[0].LBase?
      && (D.EndsInFun(ls[1..]) ==> b.types[id].info.kind == FUNC_PROTO)
      && (D.EndsInArr(D.Trimmed(ls[1..])) ==> UnqualifiedKind(b, rank, id) == ARRAY)
    decreases rank[id]
  {
    hide D.Trimmed;
    var k := b.types[id].info.kind;
    if id != 0 && GoesOn(k) {
      var next := NextId(b.types[id]);
      LastLayer(b, rank, next);
      var inner, l := LayersOf(b, rank, next), LayerOf(b, rank, id);
      assert LayersOf(b, rank, id)[1..] == inner[1..] + [l];
      TrimmedLast(inner[1..], l);
    } else {
      assert LayersOf(b, rank, id)[1..] == [];
      TrimmedLast([], D.LBase(id));
    }
  }

  lemma TrimmedLast(ls: seq<D.Layer>, l: D.Layer)
    ensures D.Trimmed([]) == []
    ensures D.Trimmed(ls + [l]) == if l.LQual? then D.Trimmed(ls) else ls + [l]
  {
    assert (ls + [l])[..|ls|] == ls;
  }

  /** What C can declare is printed as a legal chain, and the chain says what the kinds say. */
  lemma {:induction false} ChainDeclares(b: Btf, rank: seq<nat>, id: Id, name: string)
    requires Printable(b, rank) && id < |rank| && Declarable(b, rank, id)
    ensures D.Legal(D.Par(name, LayersOf(b, rank, id)))
    ensures D.DeclOf(D.Par(name, LayersOf(b, rank, id))) == Declared(b, rank, id, name)
    decreases rank[id], 1
  {
    var k := b.types[id].info.kind;
    if id != 0 && GoesOn(k) {
      var next := NextId(b.types[id]);
      ChainDeclares(b, rank, next, name);
      LastLayer(b, rank, next);
      OuterLayer(b, rank, id, name);
    } else {
      EndLayer(b, rank, id, name);
    }
  }

  lemma EndLayer(b: Btf, rank: seq<nat>, id: Id, name: string)
    requires Printable(b, rank) && id < |rank| && Declarable(b, rank, id)
        && (id == 0 || !GoesOn(b.types[id].info.kind))
    ensures D.Legal(D.Par(name, LayersOf(b, rank, id)))
    ensures D.DeclOf(D.Par(name, LayersOf(b, rank, id))) == Declared(b, rank, id, name)
  {
    assert LayersOf(b, rank, id) == [D.LBase(id)];
    assert [D.LBase(id)][1..] == [];
    assert D.QualSet([]) == {};
  }

  lemma OuterLayer(b: Btf, rank: seq<nat>, id: Id, name: string)
    requires Printable(b, rank) && id < |rank| && Declarable(b, rank, id)
        && id != 0 && GoesOn(b.types[id].info.kind)
    requires var ls := LayersOf(b, rank, NextId(b.types[id]));
      && D.Legal(D.Par(name, ls))
      && D.DeclOf(D.Par(name, ls)) == Declared(b, rank, NextId(b.types[id]), name)
      && (D.EndsInFun(ls[1..]) ==> b.types[NextId(b.types[id])].info.kind == FUNC_PROTO)
      && (D.EndsInArr(D.Trimmed(ls[1..])) ==> UnqualifiedKind(b, rank, NextId(b.types[id])) == ARRAY)
    ensures D.Legal(D.Par(name, LayersOf(b, rank, id)))
    ensures D.DeclOf(D.Par(name, LayersOf(b, rank, id))) == Declared(b, rank, id, name)
    decreases rank[id], 0
  {
    var ls, l := LayersOf(b, rank, NextId(b.types[id])), LayerOf(b, rank, id);
    if b.types[id].info.kind == FUNC_PROTO {
      ParamsDeclare(b, rank, id);
    }
    hide D.DeclOf, D.LegalTail, D.Trimmed, D.LegalParams, D.QualifiedMods, D.Qualified, D.DeclsOf, ParsOf,
        DeclaredParams,
        Variadic, FixedParams, D.LoneVoid;
    OuterLayerFollows(b, rank, id, ls[1..]);
    OuterLayerDeclares(b, rank, id, name);
    D.LegalAppend(ls[1..], l);
    assert (ls + [l])[1..] == ls[1..] + [l] && LayersOf(b, rank, id) == ls + [l];
    assert D.Legal(D.Par(name, ls + [l]));
    D.DeclAppend(name, ls, l);
  }

  lemma OuterLayerFollows(b: Btf, rank: seq<nat>, id: Id, ls: seq<D.Layer>)
    requires Printable(b, rank) && id < |rank| && Declarable(b, rank, id)
        && id != 0 && GoesOn(b.types[id].info.kind)
    requires D.EndsInFun(ls) ==> b.types[NextId(b.types[id])].info.kind == FUNC_PROTO
    requires D.EndsInArr(D.Trimmed(ls)) ==> UnqualifiedKind(b, rank, NextId(b.types[id])) == ARRAY
    requires b.types[id].info.kind == FUNC_PROTO ==> ParamsLegal(b, rank, id)
    ensures D.MayFollow(ls, LayerOf(b, rank, id))
  {
    hide D.LegalParams, D.Trimmed, ParsOf, D.LoneVoid, FixedParams, Variadic;
  }

  ghost predicate ParamsLegal(b: Btf, rank: seq<nat>, id: Id)
    requires Printable(b, rank) && id < |rank|
  {
    var ps := ParamsOf(b.types[id]);
    var pars := ParsOf(b, rank, id, FixedParams(ps));
    && D.LegalParams(pars) && (if Variadic(ps) then pars != [] else !D.LoneVoid(pars))
    && D.DeclsOf(pars) == DeclaredParams(b, rank, id, FixedParams(ps))
  }

  lemma OuterLayerDeclares(b: Btf, rank: seq<nat>, id: Id, name: string)
    requires Printable(b, rank) && id < |rank| && id != 0 && GoesOn(b.types[id].info.kind)
    requires b.types[id].info.kind == FUNC_PROTO ==> ParamsLegal(b, rank, id)
    ensures NextId(b.types[id]) < |rank| && rank[NextId(b.types[id])] < rank[id]
    ensures var (d, l) := (Declared(b, rank, NextId(b.types[id]), name), LayerOf(b, rank, id));
      && (l.LQual? ==> Declared(b, rank, id, name) == D.Qualified(d, l.q))
      && (!l.LQual? ==> Declared(b, rank, id, name) == d.(mods := D.Outside(d.mods, l)))
  {
    hide D.Qualified, D.LegalParams, D.LoneVoid, D.DeclsOf;
  }

  /** The parameters of a prototype are legal and declare what the kinds say. */
  lemma {:induction false} ParamsDeclare(b: Btf, rank: seq<nat>, id: Id)
    requires Printable(b, rank) && id < |rank| && Declarable(b, rank, id) && b.types[id].info.kind == FUNC_PROTO
    ensures ParamsLegal(b, rank, id)
    decreases rank[id], 0, 1
  {
    hide D.Legal, D.DeclOf, LayersOf, Declared, Declarable, D.LoneVoid;
    VoidConventions(b, rank, id);
    var ps := ParamsOf(b.types[id]);
    var n := FixedParams(ps);
    var pars, ds := ParsOf(b, rank, id, n), DeclaredParams(b, rank, id, n);
    DeclsAt(pars);
    forall k | 0 <= k < n ensures D.Legal(pars[k]) && D.DeclsOf(pars)[k] == ds[k] {
      ParamDeclarable(b, rank, id, k);
      ParsIs(b, rank, id, n, k);
      ChainDeclares(b, rank, ps[k].ty, b.str(ps[k].name));
    }
  }

  lemma ParamDeclarable(b: Btf, rank: seq<nat>, id: Id, k: nat)
    requires Printable(b, rank) && id < |rank| && Declarable(b, rank, id) && b.types[id].info.kind == FUNC_PROTO
    requires k < FixedParams(ParamsOf(b.types[id]))
    ensures ParamsOf(b.types[id])[k].ty < |rank| && rank[ParamsOf(b.types[id])[k].ty] < rank[id]
    ensures Declarable(b, rank, ParamsOf(b.types[id])[k].ty)
  {
  }

  lemma {:induction false} ParsIs(b: Btf, rank: seq<nat>, id: Id, n: nat, k: nat)
    requires Printable(b, rank) && id < |rank| && k < n <= |ParamsOf(b.types[id])|
    ensures var p := ParamsOf(b.types[id])[k];
      p.ty < |rank| && ParsOf(b, rank, id, n)[k] == D.Par(b.str(p.name), LayersOf(b, rank, p.ty))
    decreases n
  {
    hide LayersOf;
    if k < n - 1 {
      ParsIs(b, rank, id, n - 1, k);
    }
  }

  lemma {:induction false} DeclsAt(ps: seq<D.Par>)
    ensures forall k {:trigger D.DeclsOf(ps)[k]} :: 0 <= k < |ps| ==> D.DeclsOf(ps)[k] == D.DeclOf(ps[k])
    decreases |ps|
  {
    hide D.DeclOf;
    if ps != [] {
      DeclsAt(ps[1..]);
    }
  }

  /** What is printed for a type reads back, under the grammar of the standard, as the declaration
      that its kinds say. */
  lemma PrintedReads(b: Btf, rank: seq<nat>, id: Id, name: string)
    requires Printable(b, rank) && id < |rank| && Declarable(b, rank, id)
    ensures D.ParseDecl(D.Strip(D.EmitDecl(D.Par(name, LayersOf(b, rank, id))))) ==
        D.Ok(Declared(b, rank, id, name), [])
  {
    hide D.ParseDecl, D.Strip, D.EmitDecl, D.DeclOf, LayersOf, Declared, Declarable;
    ChainDeclares(b, rank, id, name);
    D.RoundTrip(D.Par(name, LayersOf(b, rank, id)));
  }

  // ---------------------------------------------------------------- one step of the printer

  lemma ChainBase(id: Id, rest: seq<D.Layer>, name: string, lastWasPtr: bool)
    ensures D.EmitChain([D.LBase(id)] + rest, name, lastWasPtr) ==
            D.EmitMods(rest) + ([D.Base(id)] + D.EmitChain(rest[D.Quals(rest)..], name, false))
  {
    assert ([D.LBase(id)] + rest)[1..] == rest;
  }

  lemma ChainPtr(rest: seq<D.Layer>, name: string, lastWasPtr: bool)
    ensures D.EmitChain([D.LPtr] + rest, name, lastWasPtr) ==
        D.SpaceIf(!lastWasPtr) + ([D.Star] + D.EmitChain(rest, name, true))
  {
    assert ([D.LPtr] + rest)[1..] == rest;
  }

  lemma ChainQual(q: D.Qual, rest: seq<D.Layer>, name: string, lastWasPtr: bool)
    ensures D.EmitChain([D.LQual(q)] + rest, name, lastWasPtr) ==
        [D.Space] + ([D.Word(q)] + D.EmitChain(rest, name, false))
  {
    assert ([D.LQual(q)] + rest)[1..] == rest;
  }

  lemma ChainArr(n: nat, rest: seq<D.Layer>, name: string, lastWasPtr: bool)
    ensures D.EmitChain([D.LArr(n)] + rest, name, lastWasPtr) ==
      (var below := rest[D.Quals(rest)..];
       if below == [] then D.EmitName(name, lastWasPtr) + D.Dimension(n)
       else (D.SpaceIf(name != "" && !lastWasPtr) +
         ((if below[0].LArr? then D.EmitChain(below, name, true)
             else D.InParens(D.EmitChain(below, name, true))) + D.Dimension(n))))
  {
    assert ([D.LArr(n)] + rest)[1..] == rest;
  }

  lemma ChainFun(ps: seq<D.Par>, v: bool, rest: seq<D.Layer>, name: string, lastWasPtr: bool)
    ensures D.EmitChain([D.LFun(ps, v)] + rest, name, lastWasPtr) ==
      (var below := rest[D.Quals(rest)..];
       D.EmitMods(rest) +
       ((if below == [] then D.EmitName(name, lastWasPtr) else [D.Space] + D.InParens(D.EmitChain(below, name, true))) +
        D.InParens(D.EmitParams(ps, v))))
  {
    assert ([D.LFun(ps, v)] + rest)[1..] == rest;
  }

  lemma ChainOther(rest: seq<D.Layer>, name: string, lastWasPtr: bool)
    ensures D.EmitChain([D.LOther] + rest, name, lastWasPtr) == []
  {
  }

  lemma ModsEnd(ls: seq<D.Layer>)
    requires ls != [] && !ls[0].LQual?
    ensures D.EmitMods(ls) == [] && ls[D.Quals(ls)..] == ls
  {
  }

  lemma ModsGoOn(q: D.Qual, rest: seq<D.Layer>, out: seq<D.Tok>)
    ensures var ls := [D.LQual(q)] + rest;
      ls[D.Quals(ls)..] == rest[D.Quals(rest)..]
          && out + D.EmitMods(ls) == ((out + [D.Word(q)]) + [D.Space]) + D.EmitMods(rest)
  {
    assert ([D.LQual(q)] + rest)[1..] == rest;
    Append3(out, [D.Word(q)], [D.Space], D.EmitMods(rest));
  }

  lemma Append2(out: seq<D.Tok>, a: seq<D.Tok>, b: seq<D.Tok>)
    ensures (out + a) + b == out + (a + b)
  {
  }

  lemma Append3(out: seq<D.Tok>, a: seq<D.Tok>, b: seq<D.Tok>, c: seq<D.Tok>)
    ensures ((out + a) + b) + c == out + (a + (b + c))
  {
  }

  // ---------------------------------------------------------------- the dumper

  /** `struct id_stack`: a view of the part of the shared stack that one chain owns. */
  class IdStack {
    const ids: seq<Id>
    var cnt: nat

    constructor (ids: seq<Id>)
      ensures this.ids == ids && cnt == |ids|
    {
      this.ids, cnt := ids, |ids|;
    }
  }

  /** The part of `struct btf_dump` that declarations use; the output is a list of tokens. */
  class BtfDump {
    const btf: Btf
    ghost const rank: seq<nat>
    var declStack: seq<Id>
    var out: seq<D.Tok>

    constructor (btf: Btf, ghost rank: seq<nat>)
      requires Printable(btf, rank)
      ensures this.btf == btf && this.rank == rank && declStack == [] && out == []
    {
      this.btf, this.rank, declStack, out := btf, rank, [], [];
    }

    ghost predicate View(decls: IdStack, r: nat)
      reads decls
    {
      && Printable(btf, rank)
      && decls.cnt <= |decls.ids| && InRange(rank, decls.ids[..decls.cnt])
      && forall k :: 0 <= k < decls.cnt ==> rank[decls.ids[k]] <= r
    }

    /** What the view still has to print, top first. */
    ghost function Left(decls: IdStack): seq<D.Layer>
      requires Printable(btf, rank) && decls.cnt <= |decls.ids| && InRange(rank, decls.ids[..decls.cnt])
      reads decls
    {
      StackLayers(btf, rank, decls.ids[..decls.cnt])
    }

    /** Popping takes the first layer off. */
    lemma Popped(decls: IdStack, r: nat)
      requires View(decls, r) && decls.cnt > 0
      ensures InRange(rank, decls.ids[..decls.cnt - 1]) && decls.ids[decls.cnt - 1] < |rank|
      ensures Left(decls) == [LayerOf(btf, rank, decls.ids[decls.cnt - 1])]
          + StackLayers(btf, rank, decls.ids[..decls.cnt - 1])
    {
      hide Printable, LayerOf;
      var ids := decls.ids[..decls.cnt];
      assert ids[..|ids| - 1] == decls.ids[..decls.cnt - 1] && ids[|ids| - 1] == decls.ids[decls.cnt - 1];
    }

    /** `btf_dump_emit_mods` */
    method EmitMods(decls: IdStack, ghost r: nat)
      requires View(decls, r)
      modifies this`out, decls
      ensures decls.cnt <= old(decls.cnt) && View(decls, r)
      ensures out == old(out) + D.EmitMods(old(Left(decls)))
      ensures Left(decls) == old(Left(decls))[D.Quals(old(Left(decls)))..]
    {
      hide Printable, LayerOf, D.EmitMods, D.Quals, Left, QualOf, StackLayers, IsMod;
      while decls.cnt > 0
        invariant View(decls, r) && decls.cnt <= old(decls.cnt)
        invariant out + D.EmitMods(Left(decls)) == old(out) + D.EmitMods(old(Left(decls)))
        invariant Left(decls)[D.Quals(Left(decls))..] == old(Left(decls))[D.Quals(old(Left(decls)))..]
        decreases decls.cnt
      {
        var done := EmitMod(decls, r);
        if done {
          return;
        }
      }
      NoMods(decls);
    }

    /** One qualifier off the top of the stack, if there is one. */
    method EmitMod(decls: IdStack, ghost r: nat) returns (done: bool)
      requires View(decls, r) && decls.cnt > 0
      modifies this`out, decls`cnt
      ensures decls.cnt == (if done then old(decls.cnt) else old(decls.cnt) - 1) && View(decls, r)
      ensures done ==> out == old(out) && D.EmitMods(Left(decls)) == [] && D.Quals(Left(decls)) == 0
      ensures !done ==> out + D.EmitMods(Left(decls)) == old(out) + D.EmitMods(old(Left(decls)))
      ensures !done ==> Left(decls)[D.Quals(Left(decls))..] == old(Left(decls))[D.Quals(old(Left(decls)))..]
    {
      hide Printable, LayerOf, D.EmitMods, D.Quals, Left, QualOf, StackLayers, IsMod;
      Popped(decls, r);
      var id := decls.ids[decls.cnt - 1];
      var kind := KindOf(id);
      ghost var rest := StackLayers(btf, rank, decls.ids[..decls.cnt - 1]);
      if !IsMod(kind) {
        ModsEnd(Left(decls));
        return true;
      }
      ModsGoOn(QualOf(kind), rest, out);
      out := out + [D.Word(QualOf(kind))] + [D.Space];
      decls.cnt := decls.cnt - 1;
      LeftIs(decls);
      return false;
    }

    lemma LeftIs(decls: IdStack)
      requires Printable(btf, rank) && decls.cnt <= |decls.ids| && InRange(rank, decls.ids[..decls.cnt])
      ensures Left(decls) == StackLayers(btf, rank, decls.ids[..decls.cnt])
    {
    }

    lemma NoMods(decls: IdStack)
      requires Printable(btf, rank) && decls.cnt == 0
      ensures D.EmitMods(Left(decls)) == [] && Left(decls)[D.Quals(Left(decls))..] == Left(decls)
    {
    }

    /** `btf_kind(btf__type_by_id(...))`, and what it says about the layer. */
    method KindOf(id: Id) returns (k: Kind)
      requires Printable(btf, rank) && id < |rank|
      ensures k == btf.types[id].info.kind
      ensures if IsMod(k) then LayerOf(btf, rank, id) == D.LQual(QualOf(k)) else !LayerOf(btf, rank, id).LQual?
    {
      k := btf.types[id].info.kind;
    }

    /** `btf_dump_emit_name` */
    method EmitName(name: string, lastWasPtr: bool)
      modifies this`out
      ensures out == old(out) + D.EmitName(name, lastWasPtr)
    {
      var separate := name != "" && !lastWasPtr;
      out := out + (if separate then [D.Space] else []);
      out := out + (if name == "" then [] else [D.Name(name)]);
    }

    /** `btf_dump_emit_type_decl`: the declaration of `id` under the name `fname` is printed, which
        reads back as what the kinds say, and the shared stack is left as it was. */
    method EmitTypeDecl(id: Id, fname: string)
      requires Printable(btf, rank) && id < |rank|
      modifies this
      ensures out == old(out) + D.EmitDecl(D.Par(fname, LayersOf(btf, rank, id)))
      ensures Declarable(btf, rank, id) ==>
        D.ParseDecl(D.Strip(out[|old(out)|..])) == D.Ok(Declared(btf, rank, id, fname), [])
      ensures declStack == old(declStack)
      decreases rank[id]
    {
      hide Printable, LayerOf, LayersOf, StackLayers, D.EmitChain, Declarable, Declared, D.ParseDecl, D.Strip,
          D.EmitDecl;
      var stackStart := |declStack|;
      PushChain(id);
      var decls := new IdStack(declStack[stackStart..]);
      assert decls.ids[..decls.cnt] == declStack[stackStart..];
      DeclIsChain(id, fname);
      EmitTypeChain(decls, fname, rank[id]);
      declStack := declStack[..stackStart];
      assert out[|old(out)|..] == D.EmitDecl(D.Par(fname, LayersOf(btf, rank, id)));
      if Declarable(btf, rank, id) {
        PrintedReads(btf, rank, id, fname);
      }
    }

    lemma DeclIsChain(id: Id, fname: string)
      requires Printable(btf, rank) && id < |rank|
      ensures D.EmitDecl(D.Par(fname, LayersOf(btf, rank, id))) == D.EmitChain(LayersOf(btf, rank, id), fname, true)
    {
    }

    /** The loop of `btf_dump_emit_type_decl`. */
    method PushChain(from: Id)
      requires Printable(btf, rank) && from < |rank|
      modifies this`declStack
      ensures old(declStack) <= declStack
      ensures var s := declStack[|old(declStack)|..];
        && InRange(rank, s) && (forall k :: 0 <= k < |s| ==> rank[s[k]] <= rank[from])
        && StackLayers(btf, rank, s) == LayersOf(btf, rank, from)
    {
      hide Printable, LayersOf, LayerOf, StackLayers;
      var id: Id := from;
      ghost var s: seq<Id> := [];
      NothingPushed(id);
      while true
        invariant id < |rank| && rank[id] <= rank[from]
        invariant declStack == old(declStack) + s && InRange(rank, s)
        invariant forall k :: 0 <= k < |s| ==> rank[s[k]] <= rank[from]
        invariant LayersOf(btf, rank, from) == LayersOf(btf, rank, id) + StackLayers(btf, rank, s)
        decreases rank[id]
      {
        declStack := declStack + [id];
        PushStep(id, s);
        s := s + [id];
        if id == 0 {
          break;
        }
        IdInRange(id);
        var t := btf.types[id];
        if !GoesOn(t.info.kind) {
          break;
        }
        id := NextId(t);
      }
      assert declStack[|old(declStack)|..] == s;
    }

    lemma NothingPushed(id: Id)
      requires Printable(btf, rank) && id < |rank|
      ensures LayersOf(btf, rank, id) == LayersOf(btf, rank, id) + StackLayers(btf, rank, [])
    {
    }

    lemma PushStep(id: Id, s: seq<Id>)
      requires Printable(btf, rank) && id < |rank| && InRange(rank, s)
      ensures InRange(rank, s + [id])
      ensures var k := btf.types[id].info.kind;
        if id == 0 || !GoesOn(k) then LayersOf(btf, rank, id) + StackLayers(btf, rank, s) ==
            StackLayers(btf, rank, s + [id])
        else NextId(btf.types[id]) < |rank| && rank[NextId(btf.types[id])] < rank[id] &&
             LayersOf(btf, rank, id) + StackLayers(btf, rank, s) ==
                 LayersOf(btf, rank, NextId(btf.types[id])) + StackLayers(btf, rank, s + [id])
    {
      hide LayerOf;
      assert (s + [id])[..|s|] == s;
    }

    /** `btf_dump_emit_type_chain` */
    method EmitTypeChain(decls: IdStack, fname: string, ghost r: nat)
      requires View(decls, r)
      modifies this, decls
      ensures out == old(out) + D.EmitChain(old(Left(decls)), fname, true)
      ensures declStack == old(declStack)
      decreases r, decls.cnt, 3
    {
      hide Printable, LayerOf, StackLayers, D.EmitChain, Left, D.EmitName;
      var lastWasPtr := true;
      while decls.cnt > 0
        invariant View(decls, r) && decls.cnt <= old(decls.cnt) && declStack == old(declStack)
        invariant out + D.EmitChain(Left(decls), fname, lastWasPtr) ==
            old(out) + D.EmitChain(old(Left(decls)), fname, true)
        decreases decls.cnt
      {
        var done;
        done, lastWasPtr := EmitLayer(decls, fname, lastWasPtr, r);
        if done {
          return;
        }
      }
      NothingLeft(decls, fname, lastWasPtr);
      EmitName(fname, lastWasPtr);
    }

    lemma NothingLeft(decls: IdStack, name: string, lastWasPtr: bool)
      requires Printable(btf, rank) && decls.cnt == 0
      ensures D.EmitChain(Left(decls), name, lastWasPtr) == D.EmitName(name, lastWasPtr)
    {
    }

    /** One round of the loop of `btf_dump_emit_type_chain`; `done` when the layer has printed
        everything below it too. */
    method EmitLayer(decls: IdStack, fname: string, lastWasPtr: bool, ghost r: nat) returns (done: bool, isPtr: bool)
      requires View(decls, r) && decls.cnt > 0
      modifies this, decls
      ensures declStack == old(declStack)
      ensures done ==> out == old(out) + D.EmitChain(old(Left(decls)), fname, lastWasPtr)
      ensures !done ==> View(decls, r) && decls.cnt < old(decls.cnt)
      ensures !done ==>
          out + D.EmitChain(Left(decls), fname, isPtr) ==
          old(out) + D.EmitChain(old(Left(decls)), fname, lastWasPtr)
      decreases r, decls.cnt, 2
    {
      hide Printable, StackLayers, D.EmitChain, D.EmitMods, D.Quals, Left, LayerOf;
      done, isPtr := false, false;
      Popped(decls, r);
      decls.cnt := decls.cnt - 1;
      LeftIs(decls);
      ghost var rest := Left(decls);
      var id := decls.ids[decls.cnt];
      LayerIs(id);
      var t := btf.types[id];
      var kind := t.info.kind;
      if id == 0 || Ends(kind) {
        ChainBase(id, rest, fname, lastWasPtr);
        EmitMods(decls, r);
        out := out + [D.Base(id)];
        Append3(old(out), D.EmitMods(rest), [D.Base(id)], D.EmitChain(Left(decls), fname, false));
      } else if kind == PTR {
        ChainPtr(rest, fname, lastWasPtr);
        out := out + D.SpaceIf(!lastWasPtr) + [D.Star];
        Append3(old(out), D.SpaceIf(!lastWasPtr), [D.Star], D.EmitChain(rest, fname, true));
        isPtr := true;
      } else if IsMod(kind) {
        ChainQual(QualOf(kind), rest, fname, lastWasPtr);
        out := out + [D.Space] + [D.Word(QualOf(kind))];
        Append3(old(out), [D.Space], [D.Word(QualOf(kind))], D.EmitChain(rest, fname, false));
      } else if kind == ARRAY {
        EmitArray(decls, t.data.nelems, fname, lastWasPtr, r);
        done := true;
      } else if kind == FUNC_PROTO {
        EmitFuncProto(decls, id, fname, lastWasPtr, r);
        done := true;
      } else {
        ChainOther(rest, fname, lastWasPtr);
        done := true;
      }
    }

    /** What an id of the stack is, and what it weighs. */
    lemma LayerIs(id: Id)
      requires Printable(btf, rank) && id < |rank|
      ensures id < |btf.types|
      ensures var k, l := btf.types[id].info.kind, LayerOf(btf, rank, id);
        if id == 0 || Ends(k) then l == D.LBase(id)
        else if k == PTR then l == D.LPtr
        else if IsMod(k) then l == D.LQual(QualOf(k))
        else if k == ARRAY then btf.types[id].data.ArrayData? && l == D.LArr(btf.types[id].data.nelems)
        else if k == FUNC_PROTO then l == FunLayer(id)
        else l == D.LOther
    {
    }

    ghost function FunLayer(id: Id): D.Layer
      requires Printable(btf, rank) && id < |rank|
    {
      var ps := ParamsOf(btf.types[id]);
      D.LFun(ParsOf(btf, rank, id, FixedParams(ps)), Variadic(ps))
    }

    /** The array case: qualifiers of the array are dropped, and parentheses keep a pointer to
        the array apart from an array of pointers. */
    method EmitArray(decls: IdStack, n: nat, fname: string, lastWasPtr: bool, ghost r: nat)
      requires View(decls, r)
      modifies this, decls
      ensures out == old(out) + D.EmitChain([D.LArr(n)] + old(Left(decls)), fname, lastWasPtr)
      ensures declStack == old(declStack)
      decreases r, decls.cnt, 4
    {
      hide Printable, StackLayers, D.EmitChain, D.Quals, Left, LayerOf, D.EmitName, D.Dimension, D.InParens;
      ghost var rest := Left(decls);
      ChainArr(n, rest, fname, lastWasPtr);
      SkipMods(decls, r);
      ghost var below := Left(decls);
      if decls.cnt == 0 {
        EmptyView(decls);
        EmitName(fname, lastWasPtr);
        out := out + D.Dimension(n);
        Append2(old(out), D.EmitName(fname, lastWasPtr), D.Dimension(n));
        return;
      }
      Popped(decls, r);
      var nextId := decls.ids[decls.cnt - 1];
      LayerIs(nextId);
      var multidim := btf.types[nextId].info.kind == ARRAY;
      NotVoidArray(nextId);
      out := out + D.SpaceIf(fname != "" && !lastWasPtr);
      ghost var out1, inner := out, D.EmitChain(below, fname, true);
      if multidim {
        EmitTypeChain(decls, fname, r);
      } else {
        out := out + [D.LParen];
        EmitTypeChain(decls, fname, r);
        out := out + [D.RParen];
        Parenthesized(out1, inner);
      }
      out := out + D.Dimension(n);
      Append3(old(out), D.SpaceIf(fname != "" && !lastWasPtr), if multidim then inner
          else D.InParens(inner), D.Dimension(n));
    }

    lemma NotVoidArray(id: Id)
      requires Printable(btf, rank) && id < |rank|
      ensures btf.types[id].info.kind == ARRAY <==> LayerOf(btf, rank, id).LArr?
    {
    }

    lemma EmptyView(decls: IdStack)
      requires Printable(btf, rank) && decls.cnt == 0
      ensures Left(decls) == []
    {
    }

    /** The loop that drops the qualifiers of an array. */
    method SkipMods(decls: IdStack, ghost r: nat)
      requires View(decls, r)
      modifies decls
      ensures decls.cnt <= old(decls.cnt) && View(decls, r)
      ensures Left(decls) == old(Left(decls))[D.Quals(old(Left(decls)))..]
    {
      hide Printable, LayerOf, D.EmitMods, D.Quals, Left;
      while decls.cnt > 0
        invariant View(decls, r) && decls.cnt <= old(decls.cnt)
        invariant Left(decls)[D.Quals(Left(decls))..] == old(Left(decls))[D.Quals(old(Left(decls)))..]
        decreases decls.cnt
      {
        Popped(decls, r);
        var id := decls.ids[decls.cnt - 1];
        var kind := KindOf(id);
        if !IsMod(kind) {
          ModsEnd(Left(decls));
          return;
        }
        ModsGoOn(QualOf(kind), StackLayers(btf, rank, decls.ids[..decls.cnt - 1]), []);
        decls.cnt := decls.cnt - 1;
        LeftIs(decls);
      }
      NoMods(decls);
    }

    /** The function case. */
    method EmitFuncProto(decls: IdStack, id: Id, fname: string, lastWasPtr: bool, ghost r: nat)
      requires View(decls, r) && id < |rank| && rank[id] <= r
      modifies this, decls
      ensures out == old(out) + D.EmitChain([FunLayer(id)] + old(Left(decls)), fname, lastWasPtr)
      ensures declStack == old(declStack)
      decreases r, decls.cnt, 4
    {
      hide Printable, StackLayers, D.EmitChain, D.EmitMods, D.EmitParams, D.Quals, Left, LayerOf, D.EmitName,
          D.InParens;
      ghost var rest, l := Left(decls), FunLayer(id);
      ChainFun(l.params, l.variadic, rest, fname, lastWasPtr);
      EmitMods(decls, r);
      ghost var below, out1 := Left(decls), out;
      ghost var inner := D.EmitChain(below, fname, true);
      if decls.cnt > 0 {
        Popped(decls, r);
        out := out + [D.Space];
        out := out + [D.LParen];
        EmitTypeChain(decls, fname, r);
        out := out + [D.RParen];
        Parenthesized(out1 + [D.Space], inner);
        Append2(out1, [D.Space], D.InParens(inner));
      } else {
        EmptyView(decls);
        EmitName(fname, lastWasPtr);
      }
      ghost var out2, head := out, if below == [] then D.EmitName(fname, lastWasPtr) else [D.Space] + D.InParens(inner);
      out := out + [D.LParen];
      EmitParams(id, r);
      out := out + [D.RParen];
      Parenthesized(out2, D.EmitParams(l.params, l.variadic));
      Append3(old(out), D.EmitMods(rest), head, D.InParens(D.EmitParams(l.params, l.variadic)));
    }

    /** The parameter list between its parentheses. */
    method EmitParams(id: Id, ghost r: nat)
      requires Printable(btf, rank) && id < |rank| && rank[id] <= r
      modifies this
      ensures out == old(out) + D.EmitParams(FunLayer(id).params, FunLayer(id).variadic)
      ensures declStack == old(declStack)
      decreases r, 0, 0
    {
      hide Printable, LayerOf, LayersOf, ParsOf, D.EmitParams, D.EmitChain;
      IdInRange(id);
      var ps := ParamsOf(btf.types[id]);
      ghost var pars, v := ParsOf(btf, rank, id, FixedParams(ps)), Variadic(ps);
      assert FunLayer(id).params == pars && FunLayer(id).variadic == v;
      hide FunLayer;
      AllToCome(pars, v);
      if |ps| == 1 && ps[0].ty == 0 {
        NoneToCome(pars, v);
        assert out == out + [];
        return;
      }
      for i := 0 to |ps|
        invariant i <= |pars| && declStack == old(declStack)
        invariant out + ToCome(pars, v, i) == old(out) + D.EmitParams(pars, v)
      {
        var p := ps[i];
        ghost var out0 := out;
        ghost var sep: seq<D.Tok> := if i > 0 then [D.Comma] + [D.Space] else [];
        if i > 0 {
          out := out + ([D.Comma] + [D.Space]);
        }
        assert out == out0 + sep;
        if i == |ps| - 1 && p.ty == 0 {
          NoneToCome(pars, v);
          out := out + [D.Ellipsis];
          Append2(out0, sep, [D.Ellipsis]);
          return;
        }
        ParsAt(id, |pars|, i);
        NextToCome(pars, v, i);
        EmitTypeDecl(p.ty, Name(btf, p.name));
        Append3(out0, sep, D.EmitDecl(pars[i]), ToCome(pars, v, i + 1));
      }
      NoneToCome(pars, v);
      assert out == out + [];
    }

    lemma IdInRange(id: Id)
      requires Printable(btf, rank) && id < |rank|
      ensures id < |btf.types|
    {
    }

    /** Parameter `i`, if it is printed like one. */
    lemma {:induction false} ParsAt(id: Id, n: nat, i: nat)
      requires Printable(btf, rank) && id < |rank| && i < n <= |ParamsOf(btf.types[id])|
      ensures var p := ParamsOf(btf.types[id])[i];
        p.ty < |rank| && rank[p.ty] < rank[id]
            && ParsOf(btf, rank, id, n)[i] == D.Par(Name(btf, p.name), LayersOf(btf, rank, p.ty))
      decreases n
    {
      if i < n - 1 {
        ParsAt(id, n - 1, i);
      }
    }
  }

  /** What is printed from parameter `i` on, with the separator before it. */
  function ToCome(ps: seq<D.Par>, v: bool, i: nat): seq<D.Tok>
    requires i <= |ps|
  {
    (if i > 0 && (i < |ps| || v) then [D.Comma] + [D.Space] else []) + D.EmitParams(ps[i..], v)
  }

  lemma AllToCome(ps: seq<D.Par>, v: bool)
    ensures ToCome(ps, v, 0) == D.EmitParams(ps, v)
  {
    assert ps[0..] == ps;
  }

  lemma NoneToCome(ps: seq<D.Par>, v: bool)
    ensures !v ==> ToCome(ps, v, |ps|) == []
    ensures v ==> ToCome(ps, v, |ps|) == (if |ps| > 0 then [D.Comma] + [D.Space] else []) + [D.Ellipsis]
  {
  }

  lemma NextToCome(ps: seq<D.Par>, v: bool, i: nat)
    requires i < |ps|
    ensures ToCome(ps, v, i) == (if i > 0 then [D.Comma] + [D.Space]
        else []) + (D.EmitDecl(ps[i]) + ToCome(ps, v, i + 1))
  {
    assert ps[i..][1..] == ps[i + 1..];
  }

  lemma Parenthesized(out: seq<D.Tok>, toks: seq<D.Tok>)
    ensures ((out + [D.LParen]) + toks) + [D.RParen] == out + D.InParens(toks)
  {
  }
}
