/** C declarations as the dumper prints them (btf_dump.c), and the grammar that reads them
    back: declarators and abstract declarators, sections 6.7.6 and 6.7.7 of ISO/IEC
    9899:2011.

    A type is a chain of layers from the base type outward. The printer turns it inside
    out; the parser, which knows nothing of the printer, turns it back. */
module Declarators {
  import opened Basics

  datatype Qual = Const | Volatile | Restrict

  /** `Base` stands for the words that name a base type: an integer, a tag, a typedef name
      or an inline definition, told apart by type id. Id 0 is void. */
  datatype Tok =
    | Space | Base(id: nat) | Name(name: string) | Word(q: Qual) | Star
    | LParen | RParen | LBracket | RBracket | Num(n: nat) | Comma | Ellipsis

  /** One type of a chain, as the printer sees it. */
  datatype Layer =
    | LBase(id: nat)
    | LQual(q: Qual)
    | LPtr
    | LArr(n: nat)
    | LFun(params: seq<Par>, variadic: bool)
    | LOther

  datatype Par = Par(name: string, layers: seq<Layer>)

  // ---------------------------------------------------------------- the printer

  /** `btf_dump_emit_name` */
  function EmitName(name: string, lastWasPtr: bool): seq<Tok> {
    if name == "" then [] else (if lastWasPtr then [] else [Space]) + [Name(name)]
  }

  /** The qualifiers at the front of a chain, and what follows them. */
  function Quals(ls: seq<Layer>): (n: nat)
    ensures n <= |ls|
    ensures forall k :: 0 <= k < n ==> ls[k].LQual?
    ensures n < |ls| ==> !ls[n].LQual?
  {
    if ls != [] && ls[0].LQual? then 1 + Quals(ls[1..]) else 0
  }

  /** `btf_dump_emit_mods` */
  function EmitMods(ls: seq<Layer>): seq<Tok> {
    if ls != [] && ls[0].LQual? then [Word(ls[0].q)] + ([Space] + EmitMods(ls[1..])) else []
  }

  /** `btf_dump_emit_type_chain`, on what is left of the stack, top first. */
  function EmitChain(ls: seq<Layer>, name: string, lastWasPtr: bool): seq<Tok>
    decreases ls, 0
  {
    if ls == [] then EmitName(name, lastWasPtr)
    else
      var rest := ls[1..];
      var below := rest[Quals(rest)..];
      match ls[0]
      case LBase(id) => EmitMods(rest) + ([Base(id)] + EmitChain(below, name, false))
      case LPtr => SpaceIf(!lastWasPtr) + ([Star] + EmitChain(rest, name, true))
      case LQual(q) => [Space] + ([Word(q)] + EmitChain(rest, name, false))
      case LArr(n) =>
        if below == [] then EmitName(name, lastWasPtr) + Dimension(n)
        else
          SpaceIf(name != "" && !lastWasPtr) +
          ((if below[0].LArr? then EmitChain(below, name, true)
              else InParens(EmitChain(below, name, true))) + Dimension(n))
      case LFun(params, variadic) =>
        EmitMods(rest) +
        ((if below == [] then EmitName(name, lastWasPtr) else [Space] + InParens(EmitChain(below, name, true))) +
         InParens(EmitParams(params, variadic)))
      case LOther => []
  }

  function SpaceIf(b: bool): seq<Tok> { if b then [Space] else [] }

  function InParens(toks: seq<Tok>): seq<Tok> { [LParen] + (toks + [RParen]) }

  function Dimension(n: nat): seq<Tok> { [LBracket, Num(n), RBracket] }

  function EmitParams(ps: seq<Par>, variadic: bool): seq<Tok>
    decreases ps, 1
  {
    if ps == [] then if variadic then [Ellipsis] else []
    else
      EmitChain(ps[0].layers, ps[0].name, true) +
      ((if |ps| > 1 || variadic then [Comma] + [Space] else []) + EmitParams(ps[1..], variadic))
  }

  /** The declaration of a whole chain (`btf_dump_emit_type_decl`). */
  function EmitDecl(p: Par): seq<Tok> { EmitChain(p.layers, p.name, true) }

  // ---------------------------------------------------------------- the parser

  /** A declaration read: `mods` lead from the qualified base type outward. */
  datatype Decl = Decl(name: string, base: nat, quals: set<Qual>, mods: seq<Mod>)

  datatype Mod = MPtr(quals: set<Qual>) | MArr(n: nat) | MFun(params: seq<Decl>, variadic: bool)

  datatype Parsed<T> = Ok(value: T, rest: seq<Tok>) | Fail

  /** A declarator read: the name in the middle, and what it says about the base. */
  datatype Dtor = Dtor(name: string, mods: seq<Mod>)

  datatype Params = Params(params: seq<Decl>, variadic: bool)

  /** type-qualifier-list */
  function ParseQuals(toks: seq<Tok>): (r: (set<Qual>, seq<Tok>))
    ensures |r.1| <= |toks|
  {
    if toks != [] && toks[0].Word? then
      var (qs, rest) := ParseQuals(toks[1..]);
      ({toks[0].q} + qs, rest)
    else ({}, toks)
  }

  /** declaration-specifiers followed by a declarator or an abstract declarator */
  function ParseDecl(toks: seq<Tok>): (r: Parsed<Decl>)
    ensures r.Ok? ==> |r.rest| < |toks|
    decreases |toks|, 4
  {
    var (qs, rest) := ParseQuals(toks);
    if rest == [] || !rest[0].Base? then Fail
    else
      var (more, after) := ParseQuals(rest[1..]);
      match ParseDeclarator(after)
      case Fail => Fail
      case Ok(d, r) => Ok(Decl(d.name, rest[0].id, qs + more, d.mods), r)
  }

  /** declarator: pointers, then a direct declarator with its suffixes. The suffix closest to
      the name is the outermost. */
  function ParseDeclarator(toks: seq<Tok>): (r: Parsed<Dtor>)
    ensures r.Ok? ==> |r.rest| <= |toks|
    decreases |toks|, 3
  {
    if toks != [] && toks[0] == Star then
      var (qs, rest) := ParseQuals(toks[1..]);
      match ParseDeclarator(rest)
      case Fail => Fail
      case Ok(d, r) => Ok(Dtor(d.name, [MPtr(qs)] + d.mods), r)
    else
      match ParseHead(toks)
      case Fail => Fail
      case Ok(d, rest) =>
        match ParseSuffixes(rest)
        case Fail => Fail
        case Ok(sufs, r) => Ok(Dtor(d.name, Reverse(sufs) + d.mods), r)
  }

  /** After "(": a parameter list starts here, not a declarator in parentheses. */
  predicate StartsParams(toks: seq<Tok>) {
    toks != [] && (toks[0] == RParen || toks[0].Base? || toks[0].Word? || toks[0] == Ellipsis)
  }

  /** The identifier, a declarator in parentheses, or nothing. */
  function ParseHead(toks: seq<Tok>): (r: Parsed<Dtor>)
    ensures r.Ok? ==> |r.rest| <= |toks|
    decreases |toks|, 2
  {
    if toks != [] && toks[0].Name? then Ok(Dtor(toks[0].name, []), toks[1..])
    else if toks != [] && toks[0] == LParen && !StartsParams(toks[1..]) then
      match ParseDeclarator(toks[1..])
      case Fail => Fail
      case Ok(d, rest) => if rest != [] && rest[0] == RParen then Ok(d, rest[1..]) else Fail
    else Ok(Dtor("", []), toks)
  }

  /** Array lengths and parameter lists, left to right. */
  function ParseSuffixes(toks: seq<Tok>): (r: Parsed<seq<Mod>>)
    ensures r.Ok? ==> |r.rest| <= |toks|
    decreases |toks|, 2
  {
    if |toks| >= 3 && toks[0] == LBracket && toks[1].Num? && toks[2] == RBracket then
      match ParseSuffixes(toks[3..])
      case Fail => Fail
      case Ok(sufs, r) => Ok([MArr(toks[1].n)] + sufs, r)
    else if toks != [] && toks[0] == LParen then
      match ParseParams(toks[1..])
      case Fail => Fail
      case Ok(ps, rest) =>
        match ParseSuffixes(rest)
        case Fail => Fail
        case Ok(sufs, r) => Ok([MFun(ps.params, ps.variadic)] + sufs, r)
    else Ok([], toks)
  }

  /** parameter-type-list and the closing parenthesis; (void) and () have no parameters. */
  function ParseParams(toks: seq<Tok>): (r: Parsed<Params>)
    ensures r.Ok? ==> |r.rest| <= |toks|
    decreases |toks|, 6
  {
    if toks != [] && toks[0] == RParen then Ok(Params([], false), toks[1..])
    else if |toks| >= 2 && toks[0] == Base(0) && toks[1] == RParen then Ok(Params([], false), toks[2..])
    else if toks != [] && toks[0] == Ellipsis then Fail
    else ParseParamList(toks)
  }

  function ParseParamList(toks: seq<Tok>): (r: Parsed<Params>)
    ensures r.Ok? ==> |r.rest| <= |toks|
    decreases |toks|, 5
  {
    if |toks| >= 2 && toks[0] == Ellipsis && toks[1] == RParen then Ok(Params([], true), toks[2..])
    else
      match ParseDecl(toks)
      case Fail => Fail
      case Ok(d, rest) =>
        if rest != [] && rest[0] == RParen then Ok(Params([d], false), rest[1..])
        else if rest != [] && rest[0] == Comma then
          match ParseParamList(rest[1..])
          case Fail => Fail
          case Ok(ps, r) => Ok(Params([d] + ps.params, ps.variadic), r)
        else Fail
  }

  // ---------------------------------------------------------------- what a chain means

  function QualSet(ls: seq<Layer>): set<Qual> {
    set k | 0 <= k < Quals(ls) :: ls[k].q
  }

  /** The chain from the base outward, up to the order of qualifiers and without the
      qualifiers of arrays. */
  function ModsOf(ls: seq<Layer>): seq<Mod>
    decreases ls, 0
  {
    if ls == [] then []
    else
      var rest := ls[1..];
      match ls[0]
      case LPtr => [MPtr(QualSet(rest))] + ModsOf(rest[Quals(rest)..])
      case LArr(n) => [MArr(n)] + ModsOf(rest[Quals(rest)..])
      case LFun(params, variadic) => [MFun(DeclsOf(params), variadic)] + ModsOf(rest)
      case _ => []
  }

  function DeclOf(p: Par): Decl
    decreases p, 0
  {
    if p.layers == [] || !p.layers[0].LBase? then Decl(p.name, 0, {}, [])
    else
      var rest := p.layers[1..];
      Decl(p.name, p.layers[0].id, QualSet(rest), ModsOf(rest[Quals(rest)..]))
  }

  function DeclsOf(ps: seq<Par>): (ds: seq<Decl>)
    ensures |ds| == |ps|
    decreases ps, 1
  {
    if ps == [] then [] else [DeclOf(ps[0])] + DeclsOf(ps[1..])
  }

  /** The chains that C allows: nothing returns an array or a function, no array has functions
      as elements, and no qualifier applies to a function. */
  ghost predicate LegalTail(ls: seq<Layer>)
    decreases ls, 0
  {
    ls == [] ||
    (var rest := ls[1..];
     LegalTail(rest) &&
     match ls[0]
     case LPtr => true
     case LQual(_) => true
     case LArr(_) => var below := rest[Quals(rest)..]; below == [] || below[0].LPtr? || below[0].LArr?
     case LFun(params, variadic) =>
       (rest == [] || rest[0].LPtr?) && LegalParams(params) && (if variadic then params != [] else !LoneVoid(params))
     case _ => false)
  }

  /** A lone parameter of type void reads as none. */
  predicate LoneVoid(ps: seq<Par>) { |ps| == 1 && ps[0].layers == [LBase(0)] }

  ghost predicate Legal(p: Par)
    decreases p, 0
  {
    p.layers != [] && p.layers[0].LBase? && LegalTail(p.layers[1..])
  }

  ghost predicate LegalParams(ps: seq<Par>)
    decreases ps, 1
  {
    forall k :: 0 <= k < |ps| ==> Legal(ps[k])
  }

  // ---------------------------------------------------------------- without spaces

  function Strip(toks: seq<Tok>): seq<Tok> {
    if toks == [] then [] else (if toks[0] == Space then [] else [toks[0]]) + Strip(toks[1..])
  }

  lemma {:induction false} StripConcat(a: seq<Tok>, b: seq<Tok>)
    ensures Strip(a + b) == Strip(a) + Strip(b)
  {
    if a == [] {
      assert a + b == b;
    } else {
      StripConcat(a[1..], b);
      TailConcat(a, b);
      Associative(if a[0] == Space then [] else [a[0]], Strip(a[1..]), Strip(b));
    }
  }

  lemma TailConcat(a: seq<Tok>, b: seq<Tok>)
    requires a != []
    ensures (a + b)[0] == a[0] && (a + b)[1..] == a[1..] + b
  {
  }

  lemma Associative<T>(a: seq<T>, b: seq<T>, c: seq<T>)
    ensures a + (b + c) == (a + b) + c
  {
  }

  lemma StripOne(t: Tok)
    ensures Strip([t]) == if t == Space then [] else [t]
  {
  }

  function NameToks(name: string): seq<Tok> { if name == "" then [] else [Name(name)] }

  function QualToks(ls: seq<Layer>): seq<Tok> {
    if ls != [] && ls[0].LQual? then [Word(ls[0].q)] + QualToks(ls[1..]) else []
  }

  /** What `EmitChain` prints, but for spaces. */
  function Plain(ls: seq<Layer>, name: string): seq<Tok>
    decreases ls, 0
  {
    if ls == [] then NameToks(name)
    else
      var rest := ls[1..];
      var below := rest[Quals(rest)..];
      match ls[0]
      case LBase(id) => QualToks(rest) + ([Base(id)] + Plain(below, name))
      case LPtr => [Star] + Plain(rest, name)
      case LQual(q) => [Word(q)] + Plain(rest, name)
      case LArr(n) =>
        (if below == [] then NameToks(name) else if below[0].LArr? then Plain(below, name)
            else InParens(Plain(below, name))) + Dimension(n)
      case LFun(params, variadic) =>
        QualToks(rest) +
        ((if below == [] then NameToks(name)
            else InParens(Plain(below, name))) + InParens(PlainParams(params, variadic)))
      case LOther => []
  }

  function PlainParams(ps: seq<Par>, variadic: bool): seq<Tok>
    decreases ps, 1
  {
    if ps == [] then if variadic then [Ellipsis] else []
    else
      Plain(ps[0].layers, ps[0].name) +
      ((if |ps| > 1 || variadic then [Comma] else []) + PlainParams(ps[1..], variadic))
  }

  lemma StripName(name: string, lastWasPtr: bool)
    ensures Strip(EmitName(name, lastWasPtr)) == NameToks(name)
  {
    StripOne(Space);
    StripOne(Name(name));
    StripConcat([Space], [Name(name)]);
    StripConcat([], [Name(name)]);
  }

  lemma {:induction false} StripMods(ls: seq<Layer>)
    ensures Strip(EmitMods(ls)) == QualToks(ls)
  {
    hide Strip;
    StripEmpty();
    if ls != [] && ls[0].LQual? {
      StripMods(ls[1..]);
      StripOne(Space);
      StripOne(Word(ls[0].q));
      StripConcat([Word(ls[0].q)], [Space] + EmitMods(ls[1..]));
      StripConcat([Space], EmitMods(ls[1..]));
      EmptyLeft(QualToks(ls[1..]));
    }
  }

  lemma EmptyLeft(toks: seq<Tok>)
    ensures [] + toks == toks
  {
  }

  lemma StripEmpty()
    ensures Strip([]) == []
  {
  }

  lemma StripParens(toks: seq<Tok>)
    ensures Strip(InParens(toks)) == InParens(Strip(toks))
  {
    hide Strip;
    StripOne(LParen);
    StripOne(RParen);
    StripConcat(toks, [RParen]);
    StripConcat([LParen], toks + [RParen]);
  }

  lemma StripDimension(n: nat)
    ensures Strip(Dimension(n)) == Dimension(n)
  {
    StripOne(LBracket);
    StripOne(Num(n));
    StripOne(RBracket);
    StripConcat([Num(n)], [RBracket]);
    StripConcat([LBracket], [Num(n)] + [RBracket]);
    assert Dimension(n) == [LBracket] + ([Num(n)] + [RBracket]);
  }

  /** A space in front makes no difference. */
  lemma StripSpaced(b: bool, toks: seq<Tok>)
    ensures Strip(SpaceIf(b) + toks) == Strip(toks)
    ensures Strip([Space] + toks) == Strip(toks)
  {
    hide Strip;
    StripEmpty();
    StripOne(Space);
    StripConcat(SpaceIf(b), toks);
    StripConcat([Space], toks);
    EmptyLeft(Strip(toks));
  }

  lemma StripCons(t: Tok, toks: seq<Tok>)
    requires t != Space
    ensures Strip([t] + toks) == [t] + Strip(toks)
  {
    hide Strip;
    StripOne(t);
    StripConcat([t], toks);
  }

  /** Spaces aside, the printer prints `Plain`, whatever came before. */
  lemma {:induction false} StripChain(ls: seq<Layer>, name: string, lastWasPtr: bool)
    ensures Strip(EmitChain(ls, name, lastWasPtr)) == Plain(ls, name)
    decreases ls, 0
  {
    hide Strip, EmitName, NameToks, EmitMods, QualToks, SpaceIf, InParens, Dimension;
    if ls == [] {
      StripName(name, lastWasPtr);
    } else {
      var rest := ls[1..];
      var below := rest[Quals(rest)..];
      match ls[0]
      case LBase(id) =>
        StripChain(below, name, false);
        StripMods(rest);
        StripCons(Base(id), EmitChain(below, name, false));
        StripConcat(EmitMods(rest), [Base(id)] + EmitChain(below, name, false));
      case LPtr =>
        StripChain(rest, name, true);
        StripCons(Star, EmitChain(rest, name, true));
        StripSpaced(!lastWasPtr, [Star] + EmitChain(rest, name, true));
      case LQual(q) =>
        StripChain(rest, name, false);
        StripCons(Word(q), EmitChain(rest, name, false));
        StripSpaced(true, [Word(q)] + EmitChain(rest, name, false));
      case LArr(n) =>
        StripChain(below, name, true);
        StripArr(ls, below, name, lastWasPtr);
      case LFun(params, variadic) =>
        StripParams(params, variadic);
        StripChain(below, name, true);
        StripFun(ls, below, name, lastWasPtr);
      case LOther => StripEmpty();
    }
  }

  lemma StripArr(ls: seq<Layer>, below: seq<Layer>, name: string, lastWasPtr: bool)
    requires ls != [] && ls[0].LArr? && below == ls[1..][Quals(ls[1..])..]
    requires Strip(EmitChain(below, name, true)) == Plain(below, name)
    ensures Strip(EmitChain(ls, name, lastWasPtr)) == Plain(ls, name)
  {
    hide Strip, EmitName, NameToks, SpaceIf, InParens, Dimension;
    var n, inner := ls[0].n, EmitChain(below, name, true);
    StripDimension(n);
    if below == [] {
      StripName(name, lastWasPtr);
      StripConcat(EmitName(name, lastWasPtr), Dimension(n));
    } else {
      StripParens(inner);
      var group := if below[0].LArr? then inner else InParens(inner);
      StripConcat(group, Dimension(n));
      StripSpaced(name != "" && !lastWasPtr, group + Dimension(n));
    }
  }

  lemma StripFun(ls: seq<Layer>, below: seq<Layer>, name: string, lastWasPtr: bool)
    requires ls != [] && ls[0].LFun? && below == ls[1..][Quals(ls[1..])..]
    requires Strip(EmitChain(below, name, true)) == Plain(below, name)
    requires Strip(EmitParams(ls[0].params, ls[0].variadic)) == PlainParams(ls[0].params, ls[0].variadic)
    ensures Strip(EmitChain(ls, name, lastWasPtr)) == Plain(ls, name)
  {
    hide Strip, EmitName, NameToks, EmitMods, QualToks, InParens;
    var inner, params := EmitChain(below, name, true), EmitParams(ls[0].params, ls[0].variadic);
    StripMods(ls[1..]);
    StripName(name, lastWasPtr);
    StripParens(inner);
    StripParens(params);
    StripSpaced(true, InParens(inner));
    var head := if below == [] then EmitName(name, lastWasPtr) else [Space] + InParens(inner);
    StripConcat(head, InParens(params));
    StripConcat(EmitMods(ls[1..]), head + InParens(params));
  }

  lemma {:induction false} StripParams(ps: seq<Par>, variadic: bool)
    ensures Strip(EmitParams(ps, variadic)) == PlainParams(ps, variadic)
    decreases ps, 1
  {
    hide Strip, EmitChain, Plain;
    StripEmpty();
    if ps == [] {
      StripOne(Ellipsis);
    } else {
      StripChain(ps[0].layers, ps[0].name, true);
      StripParams(ps[1..], variadic);
      StripOne(Space);
      StripCons(Comma, [Space]);
      var sep: seq<Tok> := if |ps| > 1 || variadic then [Comma] + [Space] else [];
      assert [Comma] + [] == [Comma];
      StripConcat(sep, EmitParams(ps[1..], variadic));
      StripConcat(EmitChain(ps[0].layers, ps[0].name, true), sep + EmitParams(ps[1..], variadic));
    }
  }

  // ---------------------------------------------------------------- reading back

  /** What may follow a declaration. */
  predicate Stops(toks: seq<Tok>) { toks == [] || toks[0] == Comma || toks[0] == RParen }

  /** Not the start of a name or of a declarator in parentheses. */
  predicate HeadFree(toks: seq<Tok>) {
    toks == [] || toks[0] == LBracket || toks[0] == Comma || toks[0] == RParen
        || (toks[0] == LParen && StartsParams(toks[1..]))
  }

  /** The part of a declarator after its pointers. */
  function ParseDirect(toks: seq<Tok>): Parsed<Dtor> {
    match ParseHead(toks)
    case Fail => Fail
    case Ok(d, rest) =>
      match ParseSuffixes(rest)
      case Fail => Fail
      case Ok(sufs, r) => Ok(Dtor(d.name, Reverse(sufs) + d.mods), r)
  }

  predicate IsTail(ls: seq<Layer>) { ls == [] || !ls[0].LQual? }

  predicate IsDirect(ls: seq<Layer>) { ls == [] || ls[0].LArr? || ls[0].LFun? }

  function Below(ls: seq<Layer>): (r: seq<Layer>)
    requires ls != []
    ensures |r| < |ls| && IsTail(r)
  {
    ls[1..][Quals(ls[1..])..]
  }

  /** The tokens that a direct layer puts behind what is below it. */
  function SuffixToks(l: Layer): seq<Tok> {
    match l
    case LArr(n) => Dimension(n)
    case LFun(params, variadic) => InParens(PlainParams(params, variadic))
    case _ => []
  }

  function SuffixMod(l: Layer): Mod {
    match l
    case LFun(params, variadic) => MFun(DeclsOf(params), variadic)
    case LArr(n) => MArr(n)
    case _ => MPtr({})
  }

  lemma {:induction false} LegalBelow(ls: seq<Layer>)
    requires LegalTail(ls) && ls != []
    ensures LegalTail(Below(ls)) && LegalTail(ls[1..])
  {
    LegalDrop(ls[1..], Quals(ls[1..]));
  }

  lemma {:induction false} LegalDrop(ls: seq<Layer>, k: nat)
    requires LegalTail(ls) && k <= |ls|
    ensures LegalTail(ls[k..])
  {
    if k > 0 {
      LegalDrop(ls[1..], k - 1);
      assert ls[1..][k - 1..] == ls[k..];
    } else {
      assert ls[0..] == ls;
    }
  }

  lemma {:induction false} QualsParse(ls: seq<Layer>, rest: seq<Tok>)
    requires rest == [] || !rest[0].Word?
    ensures ParseQuals(QualToks(ls) + rest) == (QualSet(ls), rest)
  {
    if ls != [] && ls[0].LQual? {
      QualsParse(ls[1..], rest);
      assert (QualToks(ls) + rest)[1..] == QualToks(ls[1..]) + rest;
      assert QualSet(ls) == {ls[0].q} + QualSet(ls[1..]) by {
        forall q | q in QualSet(ls) ensures q in {ls[0].q} + QualSet(ls[1..]) {
          var k :| 0 <= k < Quals(ls) && ls[k].q == q;
          if k > 0 { assert ls[1..][k - 1].q == q; }
        }
        forall q | q in QualSet(ls[1..]) ensures q in QualSet(ls) {
          var k :| 0 <= k < Quals(ls[1..]) && ls[1..][k].q == q;
          assert ls[k + 1].q == q;
        }
      }
    } else {
      assert QualToks(ls) + rest == rest && QualSet(ls) == {};
    }
  }

  /** Qualifiers print first. */
  lemma {:induction false} PlainQuals(ls: seq<Layer>, name: string)
    ensures Plain(ls, name) == QualToks(ls) + Plain(ls[Quals(ls)..], name)
  {
    if ls != [] && ls[0].LQual? {
      PlainQuals(ls[1..], name);
      assert ls[1..][Quals(ls[1..])..] == ls[Quals(ls)..];
    } else {
      assert ls[0..] == ls;
      EmptyLeft(Plain(ls, name));
    }
  }

  /** A direct layer prints what is below it, in parentheses if that begins with a pointer,
      and then its suffix. */
  lemma DirectPlain(ls: seq<Layer>, name: string)
    requires LegalTail(ls) && ls != [] && IsDirect(ls)
    ensures Below(ls) == [] || Below(ls)[0].LPtr? || (Below(ls)[0].LArr? && ls[0].LArr?)
    ensures Plain(ls, name) ==
      (if Below(ls) != [] && Below(ls)[0].LPtr? then InParens(Plain(Below(ls), name))
          else Plain(Below(ls), name)) + SuffixToks(ls[0])
    ensures ModsOf(ls) == [SuffixMod(ls[0])] + ModsOf(Below(ls))
  {
    hide InParens, Dimension;
    if ls[0].LFun? {
      assert Quals(ls[1..]) == 0 && ls[1..][0..] == ls[1..] && QualToks(ls[1..]) == [];
      EmptyLeft(Plain(ls, name));
    }
  }

  /** A chain that has anything to print begins like a declarator. */
  lemma {:induction false} PlainStarts(ls: seq<Layer>, name: string)
    requires LegalTail(ls) && IsTail(ls)
    ensures var t := Plain(ls, name);
      if t == [] then ls == [] && name == ""
      else t[0] == Star || t[0].Name? || t[0] == LParen || t[0] == LBracket
    ensures ls != [] && ls[0].LPtr? ==> Plain(ls, name) != [] && Plain(ls, name)[0] == Star
    ensures IsDirect(ls) && Plain(ls, name) != [] ==> Plain(ls, name)[0] != Star
    decreases |ls|
  {
    hide ModsOf, SuffixMod, PlainParams;
    if ls != [] && IsDirect(ls) {
      DirectPlain(ls, name);
      LegalBelow(ls);
      PlainStarts(Below(ls), name);
    }
  }

  /** A legal declaration begins with a qualifier or its base. */
  lemma DeclStarts(p: Par)
    requires Legal(p)
    ensures Plain(p.layers, p.name) != []
    ensures var t := Plain(p.layers, p.name)[0]; t.Word? || t.Base?
  {
  }

  ghost predicate DeclReads(p: Par, rest: seq<Tok>) {
    ParseDecl(Plain(p.layers, p.name) + rest) == Ok(DeclOf(p), rest)
  }

  ghost predicate DeclaratorReads(ls: seq<Layer>, name: string, rest: seq<Tok>) {
    ParseDeclarator(Plain(ls, name) + rest) == Ok(Dtor(name, ModsOf(ls)), rest)
  }

  ghost predicate DirectReads(ls: seq<Layer>, name: string, tail: seq<Tok>, sufs: seq<Mod>, r: seq<Tok>) {
    ParseDirect(Plain(ls, name) + tail) == Ok(Dtor(name, Reverse(sufs) + ModsOf(ls)), r)
  }

  ghost predicate SuffixesRead(toks: seq<Tok>, sufs: seq<Mod>, r: seq<Tok>) {
    ParseSuffixes(toks) == Ok(sufs, r)
  }

  ghost predicate ParamsRead(ps: seq<Par>, variadic: bool, tail: seq<Tok>) {
    ParseParams(PlainParams(ps, variadic) + ([RParen] + tail)) == Ok(Params(DeclsOf(ps), variadic), tail)
  }

  ghost predicate ParamListReads(ps: seq<Par>, variadic: bool, tail: seq<Tok>) {
    ParseParamList(PlainParams(ps, variadic) + ([RParen] + tail)) == Ok(Params(DeclsOf(ps), variadic), tail)
  }

  lemma {:induction false} ReadDeclarator(ls: seq<Layer>, name: string, rest: seq<Tok>)
    requires LegalTail(ls) && IsTail(ls) && Stops(rest)
    ensures DeclaratorReads(ls, name, rest)
    decreases ls, 1
  {
    hide DeclaratorReads, DirectReads, LegalTail;
    if ls != [] && ls[0].LPtr? {
      LegalBelow(ls);
      ReadDeclarator(Below(ls), name, rest);
      PointerReads(ls, name, rest);
    } else {
      NotOther(ls);
      StoppedReads(rest);
      ReadDirect(ls, name, rest, [], rest);
      DirectIsDeclarator(ls, name, rest);
    }
  }

  lemma NotOther(ls: seq<Layer>)
    requires LegalTail(ls) && IsTail(ls) && (ls == [] || !ls[0].LPtr?)
    ensures IsDirect(ls)
  {
  }

  lemma StoppedReads(rest: seq<Tok>)
    requires Stops(rest)
    ensures SuffixesRead(rest, [], rest) && HeadFree(rest)
  {
  }

  lemma PointerReads(ls: seq<Layer>, name: string, rest: seq<Tok>)
    requires LegalTail(ls) && ls != [] && ls[0].LPtr? && Stops(rest) && DeclaratorReads(Below(ls), name, rest)
    ensures DeclaratorReads(ls, name, rest)
  {
    hide ParseQuals, QualToks, QualSet, LegalTail;
    var toks := Plain(Below(ls), name) + rest;
    LegalBelow(ls);
    PlainStarts(Below(ls), name);
    PlainQuals(ls[1..], name);
    QualsParse(ls[1..], toks);
    PointerTokens(QualToks(ls[1..]), Plain(Below(ls), name), rest);
    assert Plain(ls, name) == [Star] + (QualToks(ls[1..]) + Plain(Below(ls), name));
  }

  lemma PointerTokens(a: seq<Tok>, b: seq<Tok>, c: seq<Tok>)
    ensures var t := ([Star] + (a + b)) + c; t != [] && t[0] == Star && t[1..] == a + (b + c)
  {
  }

  lemma DirectIsDeclarator(ls: seq<Layer>, name: string, rest: seq<Tok>)
    requires LegalTail(ls) && IsDirect(ls) && Stops(rest) && DirectReads(ls, name, rest, [], rest)
    ensures DeclaratorReads(ls, name, rest)
  {
    hide ParseHead, ParseSuffixes, Plain, LegalTail, ModsOf;
    PlainStarts(ls, name);
    var toks := Plain(ls, name) + rest;
    assert toks == [] || toks[0] != Star;
    assert [] + ModsOf(ls) == ModsOf(ls);
    assert Reverse<Mod>([]) == [];
  }

  lemma {:induction false} ReadDirect(ls: seq<Layer>, name: string, tail: seq<Tok>, sufs: seq<Mod>, r: seq<Tok>)
    requires LegalTail(ls) && IsDirect(ls) && HeadFree(tail) && SuffixesRead(tail, sufs, r)
    ensures DirectReads(ls, name, tail, sufs, r)
    decreases ls, 0
  {
    hide DirectReads, SuffixesRead, DeclaratorReads, HeadFree, LegalTail, Plain, ModsOf;
    if ls == [] {
      NameReads(name, tail, sufs, r);
    } else {
      var below, s, m := Below(ls), SuffixToks(ls[0]), SuffixMod(ls[0]);
      DirectPlain(ls, name);
      LegalBelow(ls);
      LegalFun(ls);
      if ls[0].LFun? { ReadParams(ls[0].params, ls[0].variadic, tail); }
      SuffixReads(ls[0], tail, sufs, r);
      if below != [] && below[0].LPtr? {
        ReadDeclarator(below, name, [RParen] + (s + tail));
        GroupReads(ls, name, tail, sufs, r);
      } else {
        ReadDirect(below, name, s + tail, [m] + sufs, r);
        DimensionReads(ls, name, tail, sufs, r);
      }
    }
  }

  lemma LegalFun(ls: seq<Layer>)
    requires LegalTail(ls) && ls != []
    ensures ls[0].LFun? ==> LegalParams(ls[0].params) && (if ls[0].variadic then ls[0].params != []
        else !LoneVoid(ls[0].params))
  {
  }

  lemma NameReads(name: string, tail: seq<Tok>, sufs: seq<Mod>, r: seq<Tok>)
    requires HeadFree(tail) && SuffixesRead(tail, sufs, r)
    ensures DirectReads([], name, tail, sufs, r)
  {
    hide ParseSuffixes, ParseDeclarator, Reverse;
    assert ModsOf([]) == [];
    assert Reverse(sufs) + [] == Reverse(sufs);
    if name == "" {
      EmptyLeft(tail);
    } else {
      assert ([Name(name)] + tail)[1..] == tail;
    }
  }

  lemma SuffixReads(l: Layer, tail: seq<Tok>, sufs: seq<Mod>, r: seq<Tok>)
    requires SuffixesRead(tail, sufs, r) && (l.LArr? || l.LFun?)
    requires l.LFun? ==>
        LegalParams(l.params) && (l.variadic ==> l.params != [])
        && ParamsRead(l.params, l.variadic, tail)
    ensures SuffixesRead(SuffixToks(l) + tail, [SuffixMod(l)] + sufs, r) && HeadFree(SuffixToks(l) + tail)
  {
    hide ParseParams, PlainParams, DeclsOf, LegalParams;
    if l.LArr? {
      assert (Dimension(l.n) + tail)[3..] == tail;
    } else {
      var inner := PlainParams(l.params, l.variadic) + ([RParen] + tail);
      ParenTokens(PlainParams(l.params, l.variadic), tail);
      ParamsStart(l.params, l.variadic, [RParen] + tail);
      assert ([LParen] + inner)[1..] == inner;
    }
  }

  lemma ParenTokens(a: seq<Tok>, b: seq<Tok>)
    ensures InParens(a) + b == [LParen] + (a + ([RParen] + b))
  {
  }

  lemma ParamsStart(ps: seq<Par>, variadic: bool, rest: seq<Tok>)
    requires LegalParams(ps) && (variadic ==> ps != []) && rest != [] && rest[0] == RParen
    ensures StartsParams(PlainParams(ps, variadic) + rest)
  {
    hide Plain;
    if ps == [] {
      EmptyLeft(rest);
    } else {
      DeclStarts(ps[0]);
    }
  }

  lemma GroupReads(ls: seq<Layer>, name: string, tail: seq<Tok>, sufs: seq<Mod>, r: seq<Tok>)
    requires LegalTail(ls) && ls != [] && IsDirect(ls) && Below(ls) != [] && Below(ls)[0].LPtr?
    requires DeclaratorReads(Below(ls), name, [RParen] + (SuffixToks(ls[0]) + tail))
    requires SuffixesRead(SuffixToks(ls[0]) + tail, [SuffixMod(ls[0])] + sufs, r)
    ensures DirectReads(ls, name, tail, sufs, r)
  {
    hide ParseSuffixes, ParseDeclarator, Plain, ModsOf, LegalTail, SuffixToks, SuffixMod;
    var s, m, p := SuffixToks(ls[0]), SuffixMod(ls[0]), Plain(Below(ls), name);
    DirectPlain(ls, name);
    LegalBelow(ls);
    PlainStarts(Below(ls), name);
    GroupTokens(p, s, tail);
    var inner := p + ([RParen] + (s + tail));
    assert inner[0] == Star;
    assert ([LParen] + inner)[1..] == inner;
    assert ([RParen] + (s + tail))[1..] == s + tail;
    ReverseCons(m, sufs, ModsOf(Below(ls)));
  }

  lemma GroupTokens(p: seq<Tok>, s: seq<Tok>, tail: seq<Tok>)
    ensures (InParens(p) + s) + tail == [LParen] + (p + ([RParen] + (s + tail)))
  {
    ParenTokens(p, s + tail);
    Associative(InParens(p), s, tail);
  }

  lemma ReverseCons(m: Mod, sufs: seq<Mod>, mods: seq<Mod>)
    ensures Reverse([m] + sufs) + mods == Reverse(sufs) + ([m] + mods)
  {
    assert ([m] + sufs)[1..] == sufs;
    Associative(Reverse(sufs), [m], mods);
  }

  lemma DimensionReads(ls: seq<Layer>, name: string, tail: seq<Tok>, sufs: seq<Mod>, r: seq<Tok>)
    requires LegalTail(ls) && ls != [] && IsDirect(ls) && !(Below(ls) != [] && Below(ls)[0].LPtr?)
    requires DirectReads(Below(ls), name, SuffixToks(ls[0]) + tail, [SuffixMod(ls[0])] + sufs, r)
    ensures DirectReads(ls, name, tail, sufs, r)
  {
    hide ParseDirect, Plain, ModsOf, LegalTail, SuffixToks, SuffixMod, Reverse;
    DirectPlain(ls, name);
    Associative(Plain(Below(ls), name), SuffixToks(ls[0]), tail);
    ReverseCons(SuffixMod(ls[0]), sufs, ModsOf(Below(ls)));
  }

  lemma {:induction false} ReadParams(ps: seq<Par>, variadic: bool, tail: seq<Tok>)
    requires LegalParams(ps) && (if variadic then ps != [] else !LoneVoid(ps))
    ensures ParamsRead(ps, variadic, tail)
    decreases ps, 3
  {
    hide LegalParams, PlainParams, ParseParamList;
    if ps == [] {
      NoParamsRead(tail);
    } else {
      ReadParamList(ps, variadic, tail);
      NotVoid(ps, variadic, tail);
    }
  }

  lemma NoParamsRead(tail: seq<Tok>)
    ensures ParamsRead([], false, tail)
  {
    EmptyLeft([RParen] + tail);
    assert ([RParen] + tail)[1..] == tail;
  }

  /** Only a lone void prints as (void), and nothing else begins like ) or ... */
  lemma NotVoid(ps: seq<Par>, variadic: bool, tail: seq<Tok>)
    requires LegalParams(ps) && ps != [] && (variadic || !LoneVoid(ps))
    ensures var t := PlainParams(ps, variadic) + ([RParen] + tail);
      t[0] != RParen && t[0] != Ellipsis && !(|t| >= 2 && t[0] == Base(0) && t[1] == RParen)
  {
    hide Plain, LegalTail;
    var p := ps[0];
    DeclStarts(p);
    LegalParts(p);
    PlainStarts(Below(p.layers), p.name);
    DeclPlain(p);
    if p.layers[1..] == [] {
      assert p.layers == [LBase(p.layers[0].id)];
    }
  }

  lemma LegalParts(p: Par)
    requires Legal(p)
    ensures p.layers != [] && p.layers[0].LBase? && LegalTail(p.layers[1..]) && LegalTail(Below(p.layers))
  {
    LegalDrop(p.layers[1..], Quals(p.layers[1..]));
  }

  lemma DeclPlain(p: Par)
    requires p.layers != [] && p.layers[0].LBase?
    ensures Plain(p.layers, p.name) ==
        QualToks(p.layers[1..]) + ([Base(p.layers[0].id)] + Plain(Below(p.layers), p.name))
  {
  }

  lemma {:induction false} ReadParamList(ps: seq<Par>, variadic: bool, tail: seq<Tok>)
    requires LegalParams(ps) && (ps != [] || variadic)
    ensures ParamListReads(ps, variadic, tail)
    decreases ps, 2
  {
    hide ParamListReads, DeclReads;
    if ps == [] {
      EllipsisReads(tail);
    } else {
      var sep: seq<Tok> := if |ps| > 1 || variadic then [Comma] else [];
      ReadDecl(ps[0], sep + (PlainParams(ps[1..], variadic) + ([RParen] + tail)));
      if |ps| > 1 || variadic {
        ReadParamList(ps[1..], variadic, tail);
      }
      ParamReads(ps, variadic, tail);
    }
  }

  lemma EllipsisReads(tail: seq<Tok>)
    ensures ParamListReads([], true, tail)
  {
    assert ([Ellipsis] + ([RParen] + tail))[2..] == tail;
  }

  lemma ParamReads(ps: seq<Par>, variadic: bool, tail: seq<Tok>)
    requires LegalParams(ps) && ps != []
    requires var sep: seq<Tok> := if |ps| > 1 || variadic then [Comma] else [];
             DeclReads(ps[0], sep + (PlainParams(ps[1..], variadic) + ([RParen] + tail)))
    requires |ps| > 1 || variadic ==> ParamListReads(ps[1..], variadic, tail)
    ensures ParamListReads(ps, variadic, tail)
  {
    hide ParseDecl, Plain, DeclOf;
    var sep: seq<Tok> := if |ps| > 1 || variadic then [Comma] else [];
    var more := PlainParams(ps[1..], variadic) + ([RParen] + tail);
    var p0 := Plain(ps[0].layers, ps[0].name);
    DeclStarts(ps[0]);
    ParamTokens(p0, sep, PlainParams(ps[1..], variadic), [RParen] + tail);
    assert ParseParamList(p0 + (sep + more)) ==
        (match ParseDecl(p0 + (sep + more)) case Fail => Fail case Ok(d, rest) =>
      if rest != [] && rest[0] == RParen then Ok(Params([d], false), rest[1..])
      else if rest != [] && rest[0] == Comma then
        (match ParseParamList(rest[1..]) case Fail => Fail case Ok(q, r) => Ok(Params([d] + q.params, q.variadic), r))
      else Fail);
    if |ps| > 1 || variadic {
      assert (sep + more)[1..] == more;
    } else {
      assert ps[1..] == [] && sep + more == [RParen] + tail && (sep + more)[1..] == tail;
      assert [DeclOf(ps[0])] + [] == [DeclOf(ps[0])];
    }
  }

  lemma ParamTokens(a: seq<Tok>, b: seq<Tok>, c: seq<Tok>, d: seq<Tok>)
    ensures (a + (b + c)) + d == a + (b + (c + d))
  {
  }

  lemma {:induction false} ReadDecl(p: Par, rest: seq<Tok>)
    requires Legal(p) && Stops(rest)
    ensures DeclReads(p, rest)
    decreases p, 0
  {
    hide DeclaratorReads, LegalTail;
    LegalParts(p);
    ReadDeclarator(Below(p.layers), p.name, rest);
    BaseReads(p, rest);
  }

  lemma BaseReads(p: Par, rest: seq<Tok>)
    requires Legal(p) && Stops(rest) && DeclaratorReads(Below(p.layers), p.name, rest)
    ensures DeclReads(p, rest)
  {
    hide ParseDeclarator, Plain, LegalTail, QualToks, QualSet, ModsOf;
    var ls := p.layers;
    LegalParts(p);
    DeclPlain(p);
    PlainStarts(Below(ls), p.name);
    var after := Plain(Below(ls), p.name) + rest;
    DeclTokens(QualToks(ls[1..]), ls[0].id, Plain(Below(ls), p.name), rest);
    QualsParse(ls[1..], [Base(ls[0].id)] + after);
    assert ([Base(ls[0].id)] + after)[1..] == after;
    assert ParseQuals(after) == ({}, after);
    assert QualSet(ls[1..]) + {} == QualSet(ls[1..]);
  }

  lemma DeclTokens(a: seq<Tok>, id: nat, b: seq<Tok>, c: seq<Tok>)
    ensures (a + ([Base(id)] + b)) + c == a + ([Base(id)] + (b + c))
  {
  }

  /** The declaration printed for any legal chain of pointers, qualifiers, arrays and function
      prototypes reads back, under the grammar of the standard, as the same chain. */
  lemma RoundTrip(p: Par)
    requires Legal(p)
    ensures ParseDecl(Strip(EmitDecl(p))) == Ok(DeclOf(p), [])
  {
    hide ParseDecl, EmitChain, Plain, Strip, DeclOf;
    StripChain(p.layers, p.name, true);
    ReadDecl(p, []);
    assert Plain(p.layers, p.name) + [] == Plain(p.layers, p.name);
  }

  /** Two chains that print alike are the same declaration. */
  lemma PrintInjective(p: Par, q: Par)
    requires Legal(p) && Legal(q) && Strip(EmitDecl(p)) == Strip(EmitDecl(q))
    ensures DeclOf(p) == DeclOf(q)
  {
    RoundTrip(p);
    RoundTrip(q);
  }

  // ---------------------------------------------------------------- one layer more

  /** A qualifier falls on the base or on the last pointer; on an array it has no effect. */
  function Qualified(d: Decl, q: Qual): Decl {
    if d.mods == [] then d.(quals := d.quals + {q}) else d.(mods := QualifiedMods(d.mods, q))
  }

  function QualifiedMods(ms: seq<Mod>, q: Qual): seq<Mod>
    requires ms != []
  {
    match ms[|ms| - 1]
    case MPtr(qs) => ms[..|ms| - 1] + [MPtr(qs + {q})]
    case _ => ms
  }

  /** What one layer further out does to a declaration. */
  function Outside(ms: seq<Mod>, l: Layer): seq<Mod>
    requires l.LQual? ==> ms != []
  {
    match l
    case LPtr => ms + [MPtr({})]
    case LArr(n) => ms + [MArr(n)]
    case LFun(params, variadic) => ms + [MFun(DeclsOf(params), variadic)]
    case LQual(q) => QualifiedMods(ms, q)
    case _ => ms
  }

  lemma OutsideCons(m: Mod, ms: seq<Mod>, l: Layer)
    requires l.LQual? ==> ms != []
    ensures Outside([m] + ms, l) == [m] + Outside(ms, l)
  {
  }

  lemma {:induction false} QualsAppend(rest: seq<Layer>, l: Layer)
    ensures var all := Quals(rest) == |rest| && l.LQual?;
      && Quals(rest + [l]) == (if all then |rest| + 1 else Quals(rest))
      && (rest + [l])[Quals(rest + [l])..] == (if all then [] else rest[Quals(rest)..] + [l])
    decreases |rest|
  {
    if rest == [] {
      assert [l][1..] == [];
    } else if rest[0].LQual? {
      QualsAppend(rest[1..], l);
      assert (rest + [l])[1..] == rest[1..] + [l];
      assert rest[Quals(rest)..] == rest[1..][Quals(rest[1..])..];
      assert (rest + [l])[Quals(rest + [l])..] == (rest[1..] + [l])[Quals(rest[1..] + [l])..];
    }
  }

  lemma QualSetAppend(rest: seq<Layer>, l: Layer)
    ensures QualSet(rest + [l]) ==
        if Quals(rest) == |rest| && l.LQual? then QualSet(rest) + {l.q} else QualSet(rest)
  {
    QualsAppend(rest, l);
    var ls := rest + [l];
    if Quals(rest) == |rest| && l.LQual? {
      assert ls[|rest|] == l;
      forall q | q in QualSet(rest) + {l.q} ensures q in QualSet(ls) {
        if q in QualSet(rest) {
          var k :| 0 <= k < Quals(rest) && rest[k].q == q;
          assert ls[k] == rest[k];
        }
      }
      assert QualSet(ls) <= QualSet(rest) + {l.q};
    } else {
      forall q | q in QualSet(rest) ensures q in QualSet(ls) {
        var k :| 0 <= k < Quals(rest) && rest[k].q == q;
        assert ls[k] == rest[k];
      }
    }
  }

  /** The layers behind a qualifier of their own, with one more at the end. */
  lemma {:induction false} ModsAppend(ls: seq<Layer>, l: Layer)
    requires LegalTail(ls + [l]) && (ls == [] || !ls[0].LQual?) && (l.LQual? ==> ls != [])
    ensures l.LQual? ==> ModsOf(ls) != []
    ensures ModsOf(ls + [l]) == Outside(ModsOf(ls), l)
    decreases |ls|
  {
    if ls == [] {
      assert [] + [l] == [l];
      OneLayer(l);
    } else {
      var rest := ls[1..];
      var below := rest[Quals(rest)..];
      assert (ls + [l])[1..] == rest + [l];
      QualsAppend(rest, l);
      QualSetAppend(rest, l);
      TailBelow(rest + [l], Quals(rest));
      match ls[0] {
        case LPtr =>
          if Quals(rest) == |rest| && l.LQual? {
            assert below == [] && ModsOf(ls) == [MPtr(QualSet(rest))];
          } else {
            assert (rest + [l])[Quals(rest)..] == below + [l];
            ModsAppend(below, l);
            OutsideCons(MPtr(QualSet(rest)), ModsOf(below), l);
          }
        case LArr(n) =>
          if Quals(rest) == |rest| && l.LQual? {
            assert below == [] && ModsOf(ls) == [MArr(n)];
          } else {
            assert (rest + [l])[Quals(rest)..] == below + [l];
            ModsAppend(below, l);
            OutsideCons(MArr(n), ModsOf(below), l);
          }
        case LFun(params, variadic) =>
          assert (rest + [l])[0].LPtr?;
          if rest == [] {
            assert rest + [l] == [l];
            OneLayer(l);
          } else {
            assert rest[0].LPtr?;
            ModsAppend(rest, l);
          }
          OutsideCons(MFun(DeclsOf(params), variadic), ModsOf(rest), l);
        case _ =>
      }
    }
  }

  lemma OneLayer(l: Layer)
    requires !l.LQual? && LegalTail([l])
    ensures ModsOf([l]) == Outside([], l)
  {
    assert [l][1..] == [];
    assert QualSet([]) == {};
  }

  lemma {:induction false} TailBelow(ls: seq<Layer>, n: nat)
    requires LegalTail(ls) && n <= |ls|
    ensures LegalTail(ls[n..])
    decreases n
  {
    if n > 0 {
      TailBelow(ls[1..], n - 1);
      assert ls[1..][n - 1..] == ls[n..];
    } else {
      assert ls[0..] == ls;
    }
  }

  /** One layer more changes a declaration in one place. */
  lemma DeclAppend(name: string, ls: seq<Layer>, l: Layer)
    requires ls != [] && Legal(Par(name, ls + [l]))
    ensures var d := DeclOf(Par(name, ls));
      DeclOf(Par(name, ls + [l])) == if l.LQual? then Qualified(d, l.q) else d.(mods := Outside(d.mods, l))
  {
    var rest := ls[1..];
    assert (ls + [l])[1..] == rest + [l] && (ls + [l])[0] == ls[0];
    QualsAppend(rest, l);
    QualSetAppend(rest, l);
    TailBelow(rest + [l], Quals(rest));
    if Quals(rest) == |rest| && l.LQual? {
      assert rest[Quals(rest)..] == [];
    } else {
      var below := rest[Quals(rest)..];
      assert (rest + [l])[Quals(rest)..] == below + [l];
      ModsAppend(below, l);
    }
  }

  /** The layers up to the last one that is no qualifier. */
  function Trimmed(ls: seq<Layer>): (r: seq<Layer>)
    ensures r != [] ==> !r[|r| - 1].LQual?
  {
    if ls != [] && ls[|ls| - 1].LQual? then Trimmed(ls[..|ls| - 1]) else ls
  }

  predicate EndsInFun(ls: seq<Layer>) { ls != [] && ls[|ls| - 1].LFun? }

  predicate EndsInArr(ls: seq<Layer>) { ls != [] && ls[|ls| - 1].LArr? }

  /** What C allows around a declaration. */
  ghost predicate MayFollow(ls: seq<Layer>, l: Layer) {
    match l
    case LPtr => true
    case LQual(_) => !EndsInFun(ls)
    case LArr(_) => !EndsInFun(ls)
    case LFun(params, variadic) =>
      && !EndsInFun(ls) && !EndsInArr(Trimmed(ls))
      && LegalParams(params) && (if variadic then params != [] else !LoneVoid(params))
    case _ => false
  }

  lemma {:induction false} TrimmedCons(x: Layer, rest: seq<Layer>)
    ensures EndsInArr(Trimmed(rest)) ==> EndsInArr(Trimmed([x] + rest))
    ensures x.LArr? && Quals(rest) == |rest| ==> EndsInArr(Trimmed([x] + rest))
    decreases |rest|
  {
    var ls := [x] + rest;
    if rest != [] && rest[|rest| - 1].LQual? {
      var n := |rest| - 1;
      assert ls[..|ls| - 1] == [x] + rest[..n];
      TrimmedCons(x, rest[..n]);
      assert rest[..n] + [rest[n]] == rest;
      QualsAppend(rest[..n], rest[n]);
    } else if rest != [] {
      assert ls[|ls| - 1] == rest[|rest| - 1];
    }
  }

  lemma {:induction false} LegalAppend(ls: seq<Layer>, l: Layer)
    requires LegalTail(ls) && MayFollow(ls, l)
    ensures LegalTail(ls + [l])
    decreases |ls|
  {
    if ls == [] {
      assert [] + [l] == [l] && [l][1..] == [];
    } else {
      var x, rest := ls[0], ls[1..];
      assert ls == [x] + rest && (ls + [l])[1..] == rest + [l];
      assert rest != [] ==> rest[|rest| - 1] == ls[|ls| - 1];
      TrimmedCons(x, rest);
      LegalAppend(rest, l);
      QualsAppend(rest, l);
      if x.LArr? && !(Quals(rest) == |rest|) {
        assert (rest[Quals(rest)..] + [l])[0] == rest[Quals(rest)..][0];
      }
    }
  }

  // ---------------------------------------------------------------- words do not run together

  /** Tokens made of letters and digits, which would merge if printed side by side. */
  predicate Wordlike(t: Tok) { t.Base? || t.Name? || t.Word? || t.Num? }

  ghost predicate Separated(toks: seq<Tok>) {
    forall k :: 0 <= k < |toks| - 1 ==> !Wordlike(toks[k]) || !Wordlike(toks[k + 1])
  }

  predicate FreeStart(toks: seq<Tok>) { toks == [] || !Wordlike(toks[0]) }

  predicate FreeEnd(toks: seq<Tok>) { toks == [] || !Wordlike(toks[|toks| - 1]) }

  lemma SeparatedConcat(a: seq<Tok>, b: seq<Tok>)
    requires Separated(a) && Separated(b) && (FreeEnd(a) || FreeStart(b))
    ensures Separated(a + b)
    ensures FreeStart(a) && (a == [] ==> FreeStart(b)) ==> FreeStart(a + b)
    ensures FreeEnd(b) && (b == [] ==> FreeEnd(a)) ==> FreeEnd(a + b)
  {
    var s := a + b;
    forall k | 0 <= k < |s| - 1 ensures !Wordlike(s[k]) || !Wordlike(s[k + 1]) {
      if k == |a| - 1 {
        assert s[k] == a[|a| - 1] && s[k + 1] == b[0];
      } else if k < |a| {
        assert s[k] == a[k] && s[k + 1] == a[k + 1];
      } else {
        assert s[k] == b[k - |a|] && s[k + 1] == b[k + 1 - |a|];
      }
    }
  }

  lemma SeparatedParens(toks: seq<Tok>)
    requires Separated(toks)
    ensures Separated(InParens(toks)) && FreeStart(InParens(toks)) && FreeEnd(InParens(toks)) && InParens(toks) != []
  {
    SeparatedConcat(toks, [RParen]);
    SeparatedConcat([LParen], toks + [RParen]);
  }

  lemma {:induction false} SeparatedMods(ls: seq<Layer>)
    ensures Separated(EmitMods(ls)) && FreeEnd(EmitMods(ls))
  {
    if ls != [] && ls[0].LQual? {
      SeparatedMods(ls[1..]);
      SeparatedConcat([Space], EmitMods(ls[1..]));
      SeparatedConcat([Word(ls[0].q)], [Space] + EmitMods(ls[1..]));
    }
  }

  /** The printed chain keeps its words apart, and after a word it does not begin with one. */
  ghost predicate KeepsApart(ls: seq<Layer>, name: string, lastWasPtr: bool) {
    var toks := EmitChain(ls, name, lastWasPtr);
    Separated(toks) && (!lastWasPtr || (name == "" && IsDirect(ls)) ==> FreeStart(toks))
  }

  lemma {:induction false} ChainKeepsApart(ls: seq<Layer>, name: string, lastWasPtr: bool)
    requires LegalTail(ls)
    ensures KeepsApart(ls, name, lastWasPtr)
    decreases ls, 1
  {
    hide LegalTail, Separated, FreeStart, FreeEnd, InParens, Dimension, EmitParams, EmitMods;
    if ls == [] {
      NameApart(name, lastWasPtr);
    } else {
      var rest, below := ls[1..], Below(ls);
      LegalBelow(ls);
      LegalFun(ls);
      match ls[0]
      case LPtr =>
        ChainKeepsApart(rest, name, true);
        PtrApart(lastWasPtr, EmitChain(rest, name, true));
      case LQual(q) =>
        ChainKeepsApart(rest, name, false);
        QualApart(q, EmitChain(rest, name, false));
      case LArr(n) =>
        ChainKeepsApart(below, name, true);
        ArrApart(ls, name, lastWasPtr);
      case LFun(params, variadic) =>
        ChainKeepsApart(below, name, true);
        ParamsKeepApart(params, variadic);
        FunApart(ls, name, lastWasPtr);
      case _ => Illegal(ls);
    }
  }

  lemma Illegal(ls: seq<Layer>)
    requires LegalTail(ls) && ls != []
    ensures !ls[0].LBase? && !ls[0].LOther?
  {
  }

  lemma NameApart(name: string, lastWasPtr: bool)
    ensures KeepsApart([], name, lastWasPtr)
    ensures Separated(EmitName(name, lastWasPtr))
        && (!lastWasPtr || name == "" ==> FreeStart(EmitName(name, lastWasPtr)))
  {
  }

  lemma PtrApart(lastWasPtr: bool, toks: seq<Tok>)
    requires Separated(toks)
    ensures var r := SpaceIf(!lastWasPtr) + ([Star] + toks); Separated(r) && FreeStart(r)
  {
    SeparatedConcat([Star], toks);
    SeparatedConcat(SpaceIf(!lastWasPtr), [Star] + toks);
  }

  lemma QualApart(q: Qual, toks: seq<Tok>)
    requires Separated(toks) && FreeStart(toks)
    ensures var r := [Space] + ([Word(q)] + toks); Separated(r) && FreeStart(r)
  {
    SeparatedConcat([Word(q)], toks);
    SeparatedConcat([Space], [Word(q)] + toks);
  }

  lemma DimensionApart(n: nat)
    ensures Separated(Dimension(n)) && FreeStart(Dimension(n)) && FreeEnd(Dimension(n)) && Dimension(n) != []
  {
  }

  lemma ArrApart(ls: seq<Layer>, name: string, lastWasPtr: bool)
    requires LegalTail(ls) && ls != [] && ls[0].LArr? && KeepsApart(Below(ls), name, true)
    ensures KeepsApart(ls, name, lastWasPtr)
  {
    hide Separated, FreeStart, FreeEnd, InParens, Dimension, EmitName, LegalTail;
    var n, inner := ls[0].n, EmitChain(Below(ls), name, true);
    DimensionApart(n);
    NameApart(name, lastWasPtr);
    if Below(ls) == [] {
      SeparatedConcat(EmitName(name, lastWasPtr), Dimension(n));
    } else {
      SeparatedParens(inner);
      var group := if Below(ls)[0].LArr? then inner else InParens(inner);
      SeparatedConcat(group, Dimension(n));
      SpaceApart();
      SeparatedConcat(SpaceIf(name != "" && !lastWasPtr), group + Dimension(n));
      assert SpaceIf(false) + (group + Dimension(n)) == group + Dimension(n);
    }
  }

  lemma SpaceApart()
    ensures forall b :: Separated(SpaceIf(b)) && FreeStart(SpaceIf(b)) && FreeEnd(SpaceIf(b))
    ensures Separated([Space]) && FreeStart([Space]) && FreeEnd([Space])
  {
  }

  lemma FunApart(ls: seq<Layer>, name: string, lastWasPtr: bool)
    requires LegalTail(ls) && ls != [] && ls[0].LFun? && KeepsApart(Below(ls), name, true)
    requires Separated(EmitParams(ls[0].params, ls[0].variadic))
    ensures KeepsApart(ls, name, lastWasPtr)
  {
    hide Separated, FreeStart, FreeEnd, InParens, EmitName, EmitParams;
    assert EmitMods(ls[1..]) == [];
    var inner, params := EmitChain(Below(ls), name, true), EmitParams(ls[0].params, ls[0].variadic);
    NameApart(name, lastWasPtr);
    SeparatedParens(inner);
    SeparatedParens(params);
    SpaceApart();
    SeparatedConcat([Space], InParens(inner));
    var head := if Below(ls) == [] then EmitName(name, lastWasPtr) else [Space] + InParens(inner);
    SeparatedConcat(head, InParens(params));
    assert [] + (head + InParens(params)) == head + InParens(params);
  }

  lemma {:induction false} ParamsKeepApart(ps: seq<Par>, variadic: bool)
    requires LegalParams(ps)
    ensures Separated(EmitParams(ps, variadic))
    decreases ps, 2
  {
    if ps != [] {
      DeclKeepsApart(ps[0]);
      ParamsKeepApart(ps[1..], variadic);
      ParamApart(EmitDecl(ps[0]), |ps| > 1 || variadic, EmitParams(ps[1..], variadic));
    }
  }

  lemma ParamApart(a: seq<Tok>, more: bool, b: seq<Tok>)
    requires Separated(a) && Separated(b) && (!more ==> b == [])
    ensures Separated(a + ((if more then [Comma] + [Space] else []) + b))
  {
    var sep: seq<Tok> := if more then [Comma] + [Space] else [];
    SeparatedConcat(sep, b);
    SeparatedConcat(a, sep + b);
  }

  /** No two words, names or numbers of a printed declaration touch. */
  lemma {:induction false} DeclKeepsApart(p: Par)
    requires Legal(p)
    ensures Separated(EmitDecl(p))
    decreases p, 0
  {
    hide LegalTail, Separated, FreeStart, FreeEnd, EmitMods;
    var ls := p.layers;
    LegalParts(p);
    ChainKeepsApart(Below(ls), p.name, false);
    SeparatedMods(ls[1..]);
    BaseApart(ls[0].id, EmitMods(ls[1..]), EmitChain(Below(ls), p.name, false));
  }

  lemma BaseApart(id: nat, mods: seq<Tok>, toks: seq<Tok>)
    requires Separated(mods) && FreeEnd(mods) && Separated(toks) && FreeStart(toks)
    ensures Separated(mods + ([Base(id)] + toks))
  {
    SeparatedConcat([Base(id)], toks);
    SeparatedConcat(mods, [Base(id)] + toks);
  }
}
