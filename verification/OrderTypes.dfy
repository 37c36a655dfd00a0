/** The order in which type definitions are printed (btf_dump.c): a depth-first walk that
    puts every struct and union behind those whose size it needs, and lets pointers to named
    ones wait for a forward declaration. */
module OrderTypes {
  import opened BtfTypes
  import opened TypeGraph

  const EINVAL: int := 22
  const ELOOP: int := 40

  datatype OrderState = NotOrdered | Ordering | Ordered

  /** The kinds that lead to one other type. */
  predicate IsStep(k: Kind) { k == PTR || k == ARRAY || k == TYPEDEF || IsMod(k) || k == FUNC_PROTO }

  predicate Composite(g: Graph, i: Id) { i < |g| && IsComposite(g[i].info.kind) }

  predicate NamedComposite(g: Graph, i: Id) { Composite(g, i) && g[i].name != 0 }

  /** Every cycle of types passes through a struct or union: the ranks fall along every other
      reference. */
  ghost predicate Orderable(g: Graph, rank: seq<nat>) {
    && |rank| == |g| > 0
    && (forall i {:trigger NextId(g[i])} :: 0 <= i < |g| && IsStep(g[i].info.kind) ==>
          NextId(g[i]) < |g| && rank[NextId(g[i])] < rank[i] && (g[i].info.kind == ARRAY <==> g[i].data.ArrayData?))
    && (forall i, k {:trigger MembersIn(g[i])[k]} :: 0 <= i < |g| && 0 <= k < |MembersIn(g[i])| ==>
        MembersIn(g[i])[k].ty < |g|)
    && forall i, k {:trigger ParamsOf(g[i])[k]} :: 0 <= i < |g| && 0 <= k < |ParamsOf(g[i])| ==>
         ParamsOf(g[i])[k].ty < |g| && rank[ParamsOf(g[i])[k].ty] < rank[i]
  }

  /** The kinds that are declared on their own, without a definition of anything else. */
  predicate IsLone(k: Kind) { k == ENUM || k == FWD }

  /** What is put in the queue when it is ordered: named structs and unions, and enums and
      forward declarations that are named or not part of another type. */
  predicate Queues(g: Graph, referenced: seq<bool>, i: Id) {
    NamedComposite(g, i) || (i < |g| && i < |referenced| && IsLone(g[i].info.kind)
        && (g[i].name != 0 || !referenced[i]))
  }

  /** How far a need reaches: in place it goes on behind pointers, to what is written out there
      for want of a name, but not behind the pointers in `stale`. It takes from a prototype what
      its types need behind a pointer; strictly, what they need by value counts as well. */
  datatype Reach = Around(stale: set<Id>) | Strict {
    predicate Stops(p: Id) { Around? && p in stale }
  }

  /** Behind every pointer. */
  const IN_PLACE := Around({})

  /** The definition of `z` is needed where type `id` is used, behind a pointer or not. The
      pointers met on the way count as well. */
  ghost predicate Needs(g: Graph, r: Reach, id: Id, throughPtr: bool, z: Id, n: nat)
    decreases n
  {
    id < |g| &&
    var d := g[id];
    if IsComposite(d.info.kind) then
      !(throughPtr && d.name != 0) &&
      (id == z || (n > 0 && exists k :: 0 <= k < |MembersIn(d)| && Needs(g, r, MembersIn(d)[k].ty, false, z, n - 1)))
    else if d.info.kind == PTR then
      id == z || (!r.Stops(id) && n > 0 && Needs(g, r, d.word, true, z, n - 1))
    else if d.info.kind == ARRAY || d.info.kind == TYPEDEF || IsMod(d.info.kind) then
      n > 0 && Needs(g, r, NextId(d), throughPtr, z, n - 1)
    else if d.info.kind == FUNC_PROTO then
      n > 0 &&
      (Needs(g, r, d.word, throughPtr || r.Around?, z, n - 1) ||
       exists k :: 0 <= k < |ParamsOf(d)| && Needs(g, r, ParamsOf(d)[k].ty, throughPtr || r.Around?, z, n - 1))
    else IsLone(d.info.kind) && id == z
  }

  /** The use of `x`, behind a pointer or not, is part of the use of `id`. */
  ghost predicate IsPart(g: Graph, id: Id, throughPtr: bool, x: Id, xThroughPtr: bool) {
    id < |g| &&
    var d := g[id];
    if IsComposite(d.info.kind) then
      !(throughPtr && d.name != 0) && !xThroughPtr && exists k :: 0 <= k < |MembersIn(d)| && MembersIn(d)[k].ty == x
    else if d.info.kind == PTR then x == d.word && xThroughPtr
    else if d.info.kind == ARRAY || d.info.kind == TYPEDEF || IsMod(d.info.kind) then
      x == NextId(d) && xThroughPtr == throughPtr
    else
      && d.info.kind == FUNC_PROTO && xThroughPtr
      && (x == d.word || exists k :: 0 <= k < |ParamsOf(d)| && ParamsOf(d)[k].ty == x)
  }

  /** The parts of a stale pointer are out of reach. */
  ghost predicate Reaches(g: Graph, r: Reach, id: Id) { id < |g| && !(g[id].info.kind == PTR && r.Stops(id)) }

  /** The definition of `z` is needed because `id` is that definition. */
  predicate Itself(g: Graph, id: Id, throughPtr: bool, z: Id) {
    id == z && id < |g| &&
    var d := g[id];
    if IsComposite(d.info.kind) then !(throughPtr && d.name != 0) else d.info.kind == PTR || IsLone(d.info.kind)
  }

  lemma ItselfNeeded(g: Graph, r: Reach, id: Id, throughPtr: bool, n: nat)
    requires Itself(g, id, throughPtr, id)
    ensures Needs(g, r, id, throughPtr, id, n)
  {
  }

  /** What is needed is the type itself, or one of its parts in reach needs it. */
  lemma NeedsPart(g: Graph, r: Reach, id: Id, throughPtr: bool, z: Id, n: nat) returns (x: Id, xThroughPtr: bool)
    requires r.Around? && Needs(g, r, id, throughPtr, z, n) && !Itself(g, id, throughPtr, z)
    ensures n > 0 && IsPart(g, id, throughPtr, x, xThroughPtr) && Reaches(g, r, id)
        && Needs(g, r, x, xThroughPtr, z, n - 1)
  {
    var d := g[id];
    x, xThroughPtr := d.word, true;
    if IsComposite(d.info.kind) {
      var k :| 0 <= k < |MembersIn(d)| && Needs(g, r, MembersIn(d)[k].ty, false, z, n - 1);
      x, xThroughPtr := MembersIn(d)[k].ty, false;
    } else if d.info.kind == FUNC_PROTO {
      if !Needs(g, r, d.word, true, z, n - 1) {
        var k :| 0 <= k < |ParamsOf(d)| && Needs(g, r, ParamsOf(d)[k].ty, true, z, n - 1);
        x := ParamsOf(d)[k].ty;
      }
    } else if d.info.kind != PTR {
      x, xThroughPtr := NextId(d), throughPtr;
    }
  }

  lemma PartNeeded(g: Graph, r: Reach, id: Id, throughPtr: bool, x: Id, xThroughPtr: bool, z: Id, n: nat)
    requires r.Around? && IsPart(g, id, throughPtr, x, xThroughPtr) && Reaches(g, r, id)
    requires Needs(g, r, x, xThroughPtr, z, n)
    ensures Needs(g, r, id, throughPtr, z, n + 1)
  {
  }

  /** The fewer pointers stop it, the further a need reaches. */
  lemma {:induction false} NeedsFurther(g: Graph, a: set<Id>, b: set<Id>, id: Id, throughPtr: bool, z: Id, n: nat)
    requires a <= b && Needs(g, Around(b), id, throughPtr, z, n)
    ensures Needs(g, Around(a), id, throughPtr, z, n)
    decreases n
  {
    hide Needs, IsPart;
    if Itself(g, id, throughPtr, z) {
      ItselfNeeded(g, Around(a), id, throughPtr, n);
    } else {
      var x, xThroughPtr := NeedsPart(g, Around(b), id, throughPtr, z, n);
      NeedsFurther(g, a, b, x, xThroughPtr, z, n - 1);
      PartNeeded(g, Around(a), id, throughPtr, x, xThroughPtr, z, n - 1);
    }
  }

  predicate IsTypedef(g: Graph, i: Id) { i < |g| && g[i].info.kind == TYPEDEF }

  // ---------------------------------------------------------------- needs as chains of uses

  /** The use of a type, behind a pointer or not. */
  datatype Use = Use(id: Id, behind: bool)

  /** The use of one type takes in the use of another one: of its members, unless it is a named
      struct or union behind a pointer, of its elements, of what it is another name for, of
      what it points to, and of its result and parameters. */
  ghost predicate Takes(g: Graph, r: Reach, x: Use, y: Use) {
    x.id < |g| &&
    var d := g[x.id];
    match d.info.kind
    case STRUCT | UNION =>
      && !(x.behind && d.name != 0) && !y.behind && d.data.Members?
      && exists k {:trigger d.data.members[k]} :: 0 <= k < |d.data.members| && d.data.members[k].ty == y.id
    case ARRAY => d.data.ArrayData? && y == Use(d.data.elem, x.behind)
    case TYPEDEF | CONST | VOLATILE | RESTRICT => y == Use(d.word, x.behind)
    case PTR => !(r.Around? && x.id in r.stale) && y == Use(d.word, true)
    case FUNC_PROTO =>
      && y.behind == (x.behind || r.Around?)
      && (y.id == d.word || (d.data.Params? && exists k {:trigger d.data.params[k]} ::
          0 <= k < |d.data.params| && d.data.params[k].ty == y.id))
    case _ => false
  }

  /** Each use takes in the next one. */
  ghost predicate Chain(g: Graph, r: Reach, p: seq<Use>) {
    |p| > 0 && forall k {:trigger p[k]} :: 0 <= k < |p| - 1 ==> Takes(g, r, p[k], p[k + 1])
  }

  /** A use that asks for a definition or declaration in the queue. */
  predicate AsksFor(g: Graph, refd: seq<bool>, u: Use) {
    u.id < |g| == |refd| &&
    match g[u.id].info.kind
    case STRUCT | UNION => g[u.id].name != 0 && !u.behind
    case ENUM | FWD => g[u.id].name != 0 || !refd[u.id]
    case _ => false
  }

  /** The end of a chain of uses is needed at its start. */
  lemma {:induction false} ChainNeeds(g: Graph, rank: seq<nat>, r: Reach, p: seq<Use>)
    requires Orderable(g, rank) && Chain(g, r, p) && Itself(g, p[|p| - 1].id, p[|p| - 1].behind, p[|p| - 1].id)
    ensures Needs(g, r, p[0].id, p[0].behind, p[|p| - 1].id, |p| - 1)
    decreases |p|
  {
    if |p| > 1 {
      var q := p[1..];
      assert Chain(g, r, q) by {
        assert forall k {:trigger q[k]} :: 0 <= k < |q| ==> q[k] == p[k + 1];
      }
      ChainNeeds(g, rank, r, q);
      assert Takes(g, r, p[0], p[1]);
      TakenNeeded(g, rank, r, p[0], p[1], p[|p| - 1].id, |p| - 2);
    } else {
      ItselfNeeded(g, r, p[0].id, p[0].behind, 0);
    }
  }

  lemma TakenNeeded(g: Graph, rank: seq<nat>, r: Reach, x: Use, y: Use, z: Id, n: nat)
    requires Orderable(g, rank) && Takes(g, r, x, y) && Needs(g, r, y.id, y.behind, z, n)
    ensures Needs(g, r, x.id, x.behind, z, n + 1)
  {
    var d := g[x.id];
    if d.info.kind in {STRUCT, UNION} {
      var k :| 0 <= k < |MembersIn(d)| && MembersIn(d)[k].ty == y.id;
      assert Needs(g, r, MembersIn(d)[k].ty, false, z, n);
    } else if d.info.kind == FUNC_PROTO && y.id != d.word {
      var k :| 0 <= k < |ParamsOf(d)| && ParamsOf(d)[k].ty == y.id;
      assert Needs(g, r, ParamsOf(d)[k].ty, x.behind || r.Around?, z, n);
    }
  }

  /** What is needed ends such a chain. */
  lemma {:induction false} NeededByChain(g: Graph, rank: seq<nat>, r: Reach, id: Id, behind: bool, z: Id, n: nat)
      returns (p: seq<Use>)
    requires Orderable(g, rank) && Needs(g, r, id, behind, z, n)
    ensures Chain(g, r, p) && p[0] == Use(id, behind) && p[|p| - 1].id == z
    ensures Itself(g, z, p[|p| - 1].behind, z)
    decreases n
  {
    p := [Use(id, behind)];
    if !Itself(g, id, behind, z) {
      var y := NeededTaken(g, rank, r, id, behind, z, n);
      var q := NeededByChain(g, rank, r, y.id, y.behind, z, n - 1);
      p := p + q;
      assert forall k {:trigger p[k]} :: 0 < k < |p| ==> p[k] == q[k - 1];
    }
  }

  lemma NeededTaken(g: Graph, rank: seq<nat>, r: Reach, id: Id, behind: bool, z: Id, n: nat) returns (y: Use)
    requires Orderable(g, rank) && Needs(g, r, id, behind, z, n) && !Itself(g, id, behind, z)
    ensures n > 0 && Takes(g, r, Use(id, behind), y) && Needs(g, r, y.id, y.behind, z, n - 1)
  {
    var d := g[id];
    y := Use(NextId(d), behind || d.info.kind == PTR || (d.info.kind == FUNC_PROTO && r.Around?));
    if IsComposite(d.info.kind) {
      var k :| 0 <= k < |MembersIn(d)| && Needs(g, r, MembersIn(d)[k].ty, false, z, n - 1);
      y := Use(d.data.members[k].ty, false);
    } else if d.info.kind == FUNC_PROTO {
      y := Use(d.word, behind || r.Around?);
      if !Needs(g, r, d.word, y.behind, z, n - 1) {
        var k :| 0 <= k < |ParamsOf(d)| && Needs(g, r, ParamsOf(d)[k].ty, y.behind, z, n - 1);
        y := Use(d.data.params[k].ty, y.behind);
      }
    }
  }

  /** Whatever a chain from a type asks for is in the queue. */
  ghost predicate AllDeclared(g: Graph, r: Reach, refd: seq<bool>, h: seq<Id>, id: Id) {
    forall p: seq<Use> {:trigger Chain(g, r, p)} ::
      Chain(g, r, p) && p[0] == Use(id, false) && AsksFor(g, refd, p[|p| - 1]) ==> p[|p| - 1].id in h
  }

  /** Whatever a chain from a queued struct, union or typedef asks for is queued before it. */
  ghost predicate DeclaredFirst(g: Graph, r: Reach, refd: seq<bool>, h: seq<Id>) {
    forall j, p: seq<Use> {:trigger h[j], Chain(g, r, p)} ::
      && 0 <= j < |h| && h[j] < |g| && g[h[j]].info.kind in {STRUCT, UNION, TYPEDEF}
      && (g[h[j]].info.kind != TYPEDEF ==> g[h[j]].name != 0)
      && Chain(g, r, p) && |p| > 1 && p[0] == Use(h[j], false) && AsksFor(g, refd, p[|p| - 1]) ==>
        p[|p| - 1].id in h[..j]
  }

  /** A chain of uses by value from a struct or union back to itself. */
  ghost predicate IsLoop(g: Graph, p: seq<Use>) {
    && Chain(g, Strict, p) && |p| > 1 && p[0].id == p[|p| - 1].id < |g| && !p[0].behind
    && g[p[0].id].info.kind in {STRUCT, UNION, TYPEDEF}
  }

  /** What a member of struct or union `y` needs, or what typedef `y` names. */
  ghost predicate NeedsFirst(g: Graph, r: Reach, y: Id, z: Id, n: nat) {
    || (Composite(g, y) && exists k :: 0 <= k < |MembersIn(g[y])| && Needs(g, r, MembersIn(g[y])[k].ty, false, z, n))
    || (IsTypedef(g, y) && Needs(g, r, NextId(g[y]), false, z, n))
  }

  // ---------------------------------------------------------------- what the walk keeps

  ghost predicate IsOrdered(s: seq<OrderState>, i: Id) { i < |s| && s[i] == Ordered }

  /** Everything needed where `id` is used is ordered. */
  ghost predicate Settled(g: Graph, r: Reach, s: seq<OrderState>, id: Id, throughPtr: bool) {
    forall z: Id, n: nat :: Needs(g, r, id, throughPtr, z, n) ==> IsOrdered(s, z)
  }

  ghost predicate AllSettled(g: Graph, r: Reach, s: seq<OrderState>) {
    forall x: Id :: IsOrdered(s, x) ==> Settled(g, r, s, x, false)
  }

  /** Exactly the definitions that are ordered have been queued, and each once but for
      typedefs. */
  ghost predicate QueuedOnce(g: Graph, refd: seq<bool>, s: seq<OrderState>, h: seq<Id>) {
    && (forall x: Id :: Queues(g, refd, x) || IsTypedef(g, x) ==> (x in h <==> IsOrdered(s, x)))
    && forall i, j :: 0 <= i < j < |h| && Queues(g, refd, h[i]) ==> h[i] != h[j]
  }

  /** Every named struct or union is queued behind what its members need, and every typedef
      behind what it names. */
  ghost predicate InOrder(g: Graph, r: Reach, refd: seq<bool>, h: seq<Id>) {
    forall j, z: Id, n: nat ::
        0 <= j < |h| && IsNamed(g, h[j]) && Queues(g, refd, z) && NeedsFirst(g, r, h[j], z, n) ==> z in h[..j]
  }

  ghost predicate IsNamed(g: Graph, i: Id) { NamedComposite(g, i) || IsTypedef(g, i) }

  /** How states may change: nothing ordered is forgotten, and what is being ordered stays so
      until its own call ends. */
  ghost predicate Advances(s: seq<OrderState>, t: seq<OrderState>) {
    && |s| == |t|
    && forall i :: 0 <= i < |s| && s[i] != NotOrdered ==> t[i] == s[i]
  }

  /** No type was left half ordered. */
  ghost predicate NoneLeft(s: seq<OrderState>, t: seq<OrderState>) {
    |s| == |t| && forall i :: 0 <= i < |s| && t[i] == Ordering ==> s[i] == Ordering
  }

  /** The structs and unions that the walk has not entered. */
  ghost function Fresh(g: Graph, s: seq<OrderState>): set<Id> {
    set i | 0 <= i < |g| && i < |s| && Composite(g, i) && s[i] == NotOrdered
  }

  lemma FreshShrinks(g: Graph, s: seq<OrderState>, t: seq<OrderState>)
    requires Advances(s, t)
    ensures Fresh(g, t) <= Fresh(g, s)
  {
  }

  lemma FreshEntered(g: Graph, s: seq<OrderState>, i: Id)
    requires i < |s| && Composite(g, i) && s[i] == NotOrdered
    ensures Fresh(g, s[i := Ordering]) < Fresh(g, s) && Advances(s, s[i := Ordering])
  {
    assert i in Fresh(g, s) && i !in Fresh(g, s[i := Ordering]);
  }

  /** A type loop: a struct or union that needs itself. */
  ghost predicate HasLoop(g: Graph) {
    exists z: Id, n: nat :: NeedsFirst(g, Strict, z, z, n)
  }

  /** The walk cannot go on from `id`: it needs something whose ordering is under way, or
      there is a loop. */
  ghost predicate Blocked(g: Graph, s: seq<OrderState>, id: Id, throughPtr: bool) {
    || HasLoop(g)
    || exists z: Id, n: nat :: z < |s| && s[z] == Ordering && Needs(g, Strict, id, throughPtr, z, n)
  }

  lemma AskedFor(g: Graph, refd: seq<bool>, u: Use)
    requires AsksFor(g, refd, u)
    ensures Itself(g, u.id, u.behind, u.id) && Queues(g, refd, u.id)
  {
  }

  lemma QueueDeclares(g: Graph, rank: seq<nat>, r: Reach, refd: seq<bool>, h: seq<Id>)
    requires Orderable(g, rank) && InOrder(g, r, refd, h)
    ensures DeclaredFirst(g, r, refd, h)
  {
    hide Needs, Queues, AsksFor, Itself, Orderable;
    forall j, p: seq<Use> {:trigger h[j], Chain(g, r, p)} | 0 <= j < |h| && h[j] < |g|
        && g[h[j]].info.kind in {STRUCT, UNION, TYPEDEF} && (g[h[j]].info.kind != TYPEDEF ==> g[h[j]].name != 0)
        && Chain(g, r, p) && |p| > 1 && p[0] == Use(h[j], false) && AsksFor(g, refd, p[|p| - 1])
      ensures p[|p| - 1].id in h[..j]
    {
      var z := p[|p| - 1];
      AskedFor(g, refd, z);
      ChainFirst(g, rank, r, p);
      assert IsNamed(g, h[j]);
    }
  }

  lemma ChainFirst(g: Graph, rank: seq<nat>, r: Reach, p: seq<Use>)
    requires Orderable(g, rank) && Chain(g, r, p) && |p| > 1 && !p[0].behind && p[0].id < |g|
    requires g[p[0].id].info.kind in {STRUCT, UNION, TYPEDEF}
    requires Itself(g, p[|p| - 1].id, p[|p| - 1].behind, p[|p| - 1].id)
    ensures NeedsFirst(g, r, p[0].id, p[|p| - 1].id, |p| - 2)
  {
    var q := p[1..];
    assert Chain(g, r, q) by {
      assert forall k {:trigger q[k]} :: 0 <= k < |q| ==> q[k] == p[k + 1];
    }
    hide Needs, Itself;
    ChainNeeds(g, rank, r, q);
    assert Takes(g, r, p[0], p[1]);
    var d := g[p[0].id];
    if d.info.kind != TYPEDEF {
      var k :| 0 <= k < |d.data.members| && d.data.members[k].ty == p[1].id;
      assert MembersIn(d)[k].ty == p[1].id;
    } else {
      assert NextId(d) == p[1].id;
    }
  }

  lemma SettledDeclares(g: Graph, rank: seq<nat>, r: Reach, refd: seq<bool>, s: seq<OrderState>, h: seq<Id>, id: Id)
    requires Orderable(g, rank) && Settled(g, r, s, id, false) && QueuedOnce(g, refd, s, h)
    ensures AllDeclared(g, r, refd, h, id)
  {
    hide Needs, Queues, AsksFor, Itself, Orderable;
    forall p: seq<Use> {:trigger Chain(g, r, p)} | Chain(g, r, p) && p[0] == Use(id, false)
        && AsksFor(g, refd, p[|p| - 1])
      ensures p[|p| - 1].id in h
    {
      AskedFor(g, refd, p[|p| - 1]);
      ChainNeeds(g, rank, r, p);
      assert IsOrdered(s, p[|p| - 1].id);
    }
  }

  /** A type that needs itself by value ends a chain of uses from itself. */
  lemma LoopIsChain(g: Graph, rank: seq<nat>)
    requires Orderable(g, rank) && HasLoop(g)
    ensures exists p: seq<Use> :: IsLoop(g, p)
  {
    hide Needs, Itself, Takes, Orderable, NeedsFirst;
    var z: Id, n: nat :| NeedsFirst(g, Strict, z, z, n);
    var y := FirstTaken(g, rank, z, n);
    var q := NeededByChain(g, rank, Strict, y.id, y.behind, z, n);
    var p := [Use(z, false)] + q;
    assert forall k {:trigger p[k]} :: 0 < k < |p| ==> p[k] == q[k - 1];
    assert IsLoop(g, p);
  }

  lemma FirstTaken(g: Graph, rank: seq<nat>, z: Id, n: nat) returns (y: Use)
    requires Orderable(g, rank) && NeedsFirst(g, Strict, z, z, n)
    ensures z < |g| && g[z].info.kind in {STRUCT, UNION, TYPEDEF}
    ensures Takes(g, Strict, Use(z, false), y) && Needs(g, Strict, y.id, y.behind, z, n)
  {
    hide Needs;
    var d := g[z];
    if Composite(g, z) {
      var k :| 0 <= k < |MembersIn(d)| && Needs(g, Strict, MembersIn(d)[k].ty, false, z, n);
      y := Use(d.data.members[k].ty, false);
    } else {
      y := Use(NextId(d), false);
    }
  }

  // ---------------------------------------------------------------- lemmas about the steps

  lemma SettledGrows(g: Graph, r: Reach, s: seq<OrderState>, t: seq<OrderState>, id: Id, throughPtr: bool)
    requires Advances(s, t) && Settled(g, r, s, id, throughPtr)
    ensures Settled(g, r, t, id, throughPtr)
  {
    hide Needs;
  }

  /** Whatever is needed behind a pointer is needed without it too. */
  lemma {:induction false} NeedsWeaker(g: Graph, r: Reach, id: Id, z: Id, n: nat)
    requires Needs(g, r, id, true, z, n)
    ensures Needs(g, r, id, false, z, n)
    decreases n
  {
    var d := g[id];
    if n > 0 {
      if d.info.kind == ARRAY || d.info.kind == TYPEDEF || IsMod(d.info.kind) {
        NeedsWeaker(g, r, NextId(d), z, n - 1);
      } else if d.info.kind == FUNC_PROTO && r == Strict {
        if Needs(g, r, d.word, true, z, n - 1) {
          NeedsWeaker(g, r, d.word, z, n - 1);
        } else {
          var k :| 0 <= k < |ParamsOf(d)| && Needs(g, r, ParamsOf(d)[k].ty, true, z, n - 1);
          NeedsWeaker(g, r, ParamsOf(d)[k].ty, z, n - 1);
        }
      }
    }
  }

  lemma SettledWeaker(g: Graph, r: Reach, s: seq<OrderState>, id: Id)
    requires Settled(g, r, s, id, false)
    ensures Settled(g, r, s, id, true)
  {
    hide Needs;
    forall z: Id, n: nat | Needs(g, r, id, true, z, n) ensures IsOrdered(s, z) {
      NeedsWeaker(g, r, id, z, n);
    }
  }

  /** A type that only leads to another one is settled with it. */
  lemma StepSettled(g: Graph, r: Reach, s: seq<OrderState>, id: Id, throughPtr: bool)
    requires id < |g| && (g[id].info.kind == ARRAY || g[id].info.kind == TYPEDEF || IsMod(g[id].info.kind))
    requires Settled(g, r, s, NextId(g[id]), throughPtr)
    ensures Settled(g, r, s, id, throughPtr)
  {
    forall z: Id, n: nat | Needs(g, r, id, throughPtr, z, n) ensures IsOrdered(s, z) {
      assert Needs(g, r, NextId(g[id]), throughPtr, z, n - 1);
    }
  }

  lemma PtrSettled(g: Graph, r: Reach, s: seq<OrderState>, id: Id, throughPtr: bool)
    requires id < |g| && g[id].info.kind == PTR && IsOrdered(s, id)
        && (r.Stops(id) || Settled(g, r, s, g[id].word, true))
    ensures Settled(g, r, s, id, throughPtr)
  {
    forall z: Id, n: nat | Needs(g, r, id, throughPtr, z, n) ensures IsOrdered(s, z) {
      assert id == z || Needs(g, r, g[id].word, true, z, n - 1);
    }
  }

  /** Kinds that need nothing but themselves. */
  lemma LeafSettled(g: Graph, r: Reach, s: seq<OrderState>, id: Id, throughPtr: bool)
    requires id < |g| && !IsComposite(g[id].info.kind) && !IsStep(g[id].info.kind) && IsOrdered(s, id)
    ensures Settled(g, r, s, id, throughPtr)
  {
  }

  /** A prototype whose types are settled behind a pointer. */
  lemma ProtoSettled(g: Graph, r: Reach, s: seq<OrderState>, id: Id, throughPtr: bool)
    requires r.Around? && id < |g| && g[id].info.kind == FUNC_PROTO && Settled(g, r, s, g[id].word, true)
    requires forall k :: 0 <= k < |ParamsOf(g[id])| ==> Settled(g, r, s, ParamsOf(g[id])[k].ty, true)
    ensures Settled(g, r, s, id, throughPtr)
  {
    forall z: Id, n: nat | Needs(g, r, id, throughPtr, z, n) ensures IsOrdered(s, z) {
      if !Needs(g, r, g[id].word, true, z, n - 1) {
        var k :| 0 <= k < |ParamsOf(g[id])| && Needs(g, r, ParamsOf(g[id])[k].ty, true, z, n - 1);
        assert Settled(g, r, s, ParamsOf(g[id])[k].ty, true);
      }
    }
  }

  lemma NamedBehindPtr(g: Graph, r: Reach, s: seq<OrderState>, id: Id)
    requires NamedComposite(g, id)
    ensures Settled(g, r, s, id, true)
  {
  }

  lemma CompositeSettled(g: Graph, r: Reach, s: seq<OrderState>, id: Id, throughPtr: bool)
    requires Composite(g, id) && IsOrdered(s, id)
    requires MembersSettled(g, r, s, id)
    ensures Settled(g, r, s, id, throughPtr)
  {
    forall z: Id, n: nat | Needs(g, r, id, throughPtr, z, n) ensures IsOrdered(s, z) {
      if z != id {
        var k :| 0 <= k < |MembersIn(g[id])| && Needs(g, r, MembersIn(g[id])[k].ty, false, z, n - 1);
        assert Settled(g, r, s, MembersIn(g[id])[k].ty, false);
      }
    }
  }

  /** Marking a settled type as ordered. */
  lemma MarkSettled(g: Graph, r: Reach, s: seq<OrderState>, id: Id)
    requires id < |s| && AllSettled(g, r, s) && Settled(g, r, s[id := Ordered], id, false)
    ensures AllSettled(g, r, s[id := Ordered])
  {
    hide Needs;
    var t := s[id := Ordered];
    forall x: Id | IsOrdered(t, x) ensures Settled(g, r, t, x, false) {
      if x != id {
        assert IsOrdered(s, x);
        forall z: Id, n: nat | Needs(g, r, x, false, z, n) ensures IsOrdered(t, z) {
          assert IsOrdered(s, z);
        }
      }
    }
  }

  /** Queueing a struct, union, enum or forward declaration as it is ordered. A struct or union
      comes behind everything that its members need. */
  lemma QueueInOrder(g: Graph, r: Reach, refd: seq<bool>, s: seq<OrderState>, h: seq<Id>, id: Id)
    requires Queues(g, refd, id) && id < |s| && s[id] != Ordered && QueuedOnce(g, refd, s, h)
    ensures QueuedOnce(g, refd, s[id := Ordered], h + [id])
    ensures InOrder(g, r, refd, h) && (NamedComposite(g, id) ==> MembersSettled(g, r, s, id)) ==>
        InOrder(g, r, refd, h + [id])
  {
    hide Needs, Queues;
    QueuesNoTypedef(g, refd, id);
    var h' := h + [id];
    if InOrder(g, r, refd, h) && (NamedComposite(g, id) ==> MembersSettled(g, r, s, id)) {
      forall j, z: Id, n: nat | 0 <= j < |h'| && IsNamed(g, h'[j]) && Queues(g, refd, z)
          && NeedsFirst(g, r, h'[j], z, n)
        ensures z in h'[..j]
      {
        if j < |h| {
          assert h'[j] == h[j] && h'[..j] == h[..j];
        } else {
          assert h'[..j] == h;
          assert IsOrdered(s, z);
        }
      }
    }
  }

  /** Everything that the members of `id` need is ordered. */
  ghost predicate MembersSettled(g: Graph, r: Reach, s: seq<OrderState>, id: Id) {
    id < |g| && forall k :: 0 <= k < |MembersIn(g[id])| ==> Settled(g, r, s, MembersIn(g[id])[k].ty, false)
  }

  lemma QueuesNoTypedef(g: Graph, refd: seq<bool>, id: Id)
    ensures Queues(g, refd, id) ==> !IsTypedef(g, id)
  {
  }

  /** Queueing a typedef as it is ordered. It comes behind everything that it names. */
  lemma QueueTypedef(g: Graph, r: Reach, refd: seq<bool>, s: seq<OrderState>, h: seq<Id>, id: Id)
    requires IsTypedef(g, id) && id < |s| && QueuedOnce(g, refd, s, h)
    ensures QueuedOnce(g, refd, s[id := Ordered], h + [id])
    ensures InOrder(g, r, refd, h) && Settled(g, r, s, NextId(g[id]), false) ==> InOrder(g, r, refd, h + [id])
  {
    hide Needs, Queues, Composite;
    forall x ensures Queues(g, refd, x) ==> !IsTypedef(g, x) {
      QueuesNoTypedef(g, refd, x);
    }
    var h' := h + [id];
    if InOrder(g, r, refd, h) && Settled(g, r, s, NextId(g[id]), false) {
      forall j, z: Id, n: nat | 0 <= j < |h'| && IsNamed(g, h'[j]) && Queues(g, refd, z)
          && NeedsFirst(g, r, h'[j], z, n)
        ensures z in h'[..j]
      {
        if j < |h| {
          assert h'[j] == h[j] && h'[..j] == h[..j];
        } else {
          assert h'[..j] == h;
          assert !Composite(g, id) by { TypedefAlone(g, id); }
          assert IsOrdered(s, z);
        }
      }
    }
  }

  lemma TypedefAlone(g: Graph, id: Id)
    ensures IsTypedef(g, id) ==> !Composite(g, id)
  {
  }

  lemma NamedQueues(g: Graph, refd: seq<bool>, id: Id)
    ensures NamedComposite(g, id) ==> Queues(g, refd, id)
  {
  }

  lemma MarkQueued(g: Graph, refd: seq<bool>, s: seq<OrderState>, h: seq<Id>, id: Id, state: OrderState)
    requires id < |s| && QueuedOnce(g, refd, s, h)
    requires (!Queues(g, refd, id) && !IsTypedef(g, id)) || (state == Ordering && s[id] != Ordered)
    ensures QueuedOnce(g, refd, s[id := state], h)
  {
    hide Queues;
  }

  // ---------------------------------------------------------------- the outcome of one call

  /** What a call on `id` that turned states `s` into `t` has achieved. */
  ghost predicate Outcome(g: Graph, was: set<Id>, stale: set<Id>, s: seq<OrderState>, t: seq<OrderState>, id: Id,
      throughPtr: bool, err: int)
  {
    && Advances(s, t) && err <= 1
    && (err >= 0 ==> stale == was && NoneLeft(s, t) && Settled(g, Around(stale), t, id, throughPtr))
    && (err == 1 ==> Settled(g, Around(stale), t, id, false))
    && (err < 0 ==>
        Stuck(g, s, id)
        && ((err == -EINVAL && HasVoid(g)) || (err == -ELOOP && Blocked(g, s, id, throughPtr))))
    && Within(g, s, t, id) && Spoils(g, was, stale, s, id)
  }

  /** A call only fails on a type that is not ordered yet, and on a struct or union that is not
      entered only if the type of some member is not ordered yet. */
  ghost predicate Stuck(g: Graph, s: seq<OrderState>, id: Id) {
    && !IsOrdered(s, id)
    && (Composite(g, id) && id < |s| && s[id] == NotOrdered ==>
        exists k :: 0 <= k < |MembersIn(g[id])| && !IsOrdered(s, MembersIn(g[id])[k].ty))
  }

  /** A set of types with all that they refer to. */
  ghost predicate Hereditary(g: Graph, c: set<Id>) {
    forall i: Id :: i in c && i < |g| ==> LeadsInto(g, i, c)
  }

  ghost predicate LeadsInto(g: Graph, i: Id, c: set<Id>) {
    && i < |g|
    && (IsStep(g[i].info.kind) ==> NextId(g[i]) in c)
    && (forall k :: 0 <= k < |MembersIn(g[i])| ==> MembersIn(g[i])[k].ty in c)
    && forall k :: 0 <= k < |ParamsOf(g[i])| ==> ParamsOf(g[i])[k].ty in c
  }

  /** A call touches nothing but what `id` leads to. */
  ghost predicate Within(g: Graph, s: seq<OrderState>, t: seq<OrderState>, id: Id) {
    |s| == |t| && forall c: set<Id>, x: Id {:trigger Hereditary(g, c), t[x]} ::
        Hereditary(g, c) && id in c && x < |s| && x !in c ==> t[x] == s[x]
  }

  /** A call turns no pointer stale but those that `id` leads to and that were not ordered. */
  ghost predicate Spoils(g: Graph, was: set<Id>, stale: set<Id>, s: seq<OrderState>, id: Id) {
    && was <= stale && (forall p :: p in stale && p !in was ==> NewPointer(g, s, p))
    && forall c: set<Id> :: Hereditary(g, c) && id in c ==> stale <= was + c
  }

  /** Neither the pointer nor what it points to is ordered. */
  ghost predicate NewPointer(g: Graph, s: seq<OrderState>, p: Id) {
    p < |g| && g[p].info.kind == PTR && !IsOrdered(s, p) && !IsOrdered(s, g[p].word)
  }

  /** Only ordered pointers are stale. */
  ghost predicate StalePointers(g: Graph, s: seq<OrderState>, stale: set<Id>) {
    forall p :: p in stale ==> p < |g| && g[p].info.kind == PTR && IsOrdered(s, p)
  }

  /** One of the types that `id` refers to. */
  ghost predicate LeadsTo(g: Graph, id: Id, next: Id) {
    id < |g| && ((IsStep(g[id].info.kind) && next == NextId(g[id]))
        || (exists k :: 0 <= k < |MembersIn(g[id])| && MembersIn(g[id])[k].ty == next)
             || exists k :: 0 <= k < |ParamsOf(g[id])| && ParamsOf(g[id])[k].ty == next)
  }

  lemma SpoilsNext(g: Graph, was: set<Id>, stale: set<Id>, r: seq<OrderState>, s: seq<OrderState>, id: Id, next: Id)
    requires LeadsTo(g, id, next) && Spoils(g, was, stale, s, next)
    requires forall p :: IsOrdered(r, p) ==> IsOrdered(s, p)
    ensures Spoils(g, was, stale, r, id)
  {
    forall c: set<Id> | Hereditary(g, c) && id in c ensures stale <= was + c {
      assert LeadsInto(g, id, c);
    }
  }

  lemma SpoilsNone(g: Graph, was: set<Id>, s: seq<OrderState>, id: Id)
    ensures Spoils(g, was, was, s, id)
  {
  }

  /** What a reference leads to, its owner leads to. */
  lemma WithinNext(g: Graph, s: seq<OrderState>, t: seq<OrderState>, id: Id, next: Id)
    requires LeadsTo(g, id, next) && Within(g, s, t, next)
    ensures Within(g, s, t, id)
  {
    forall c: set<Id>, x: Id {:trigger Hereditary(g, c), t[x]} | Hereditary(g, c) && id in c && x < |s| && x !in c
      ensures t[x] == s[x]
    {
      assert LeadsInto(g, id, c);
    }
  }

  lemma WithinTwice(g: Graph, s: seq<OrderState>, t: seq<OrderState>, u: seq<OrderState>, id: Id)
    requires Within(g, s, t, id) && Within(g, t, u, id)
    ensures Within(g, s, u, id)
  {
    forall c: set<Id>, x: Id {:trigger Hereditary(g, c), u[x]} | Hereditary(g, c) && id in c && x < |s| && x !in c
      ensures u[x] == s[x]
    {
      assert t[x] == s[x];
    }
  }

  lemma WithinOne(g: Graph, s: seq<OrderState>, id: Id, state: OrderState)
    requires id < |s|
    ensures Within(g, s, s[id := state], id) && Within(g, s, s, id)
  {
  }

  lemma AdvancesTwice(s: seq<OrderState>, t: seq<OrderState>, u: seq<OrderState>)
    requires Advances(s, t) && Advances(t, u)
    ensures Advances(s, u)
    ensures NoneLeft(s, t) && NoneLeft(t, u) ==> NoneLeft(s, u)
  {
  }

  /** A failure further down is a failure here. */
  lemma BlockedByStep(g: Graph, s: seq<OrderState>, id: Id, throughPtr: bool, next: Id, nextThroughPtr: bool)
    requires id < |g| && IsStep(g[id].info.kind) && Blocked(g, s, next, nextThroughPtr)
    requires nextThroughPtr == (throughPtr || g[id].info.kind == PTR)
    requires if g[id].info.kind == PTR || g[id].info.kind == FUNC_PROTO
             then next == g[id].word || (g[id].info.kind == FUNC_PROTO && exists k ::
                 0 <= k < |ParamsOf(g[id])| && ParamsOf(g[id])[k].ty == next)
             else next == NextId(g[id])
    ensures Blocked(g, s, id, throughPtr)
  {
    if !HasLoop(g) {
      var z: Id, n: nat :| z < |s| && s[z] == Ordering && Needs(g, Strict, next, nextThroughPtr, z, n);
      assert Needs(g, Strict, id, throughPtr, z, n + 1);
    }
  }

  lemma BlockedByMember(g: Graph, s: seq<OrderState>, t: seq<OrderState>, id: Id, throughPtr: bool, k: nat)
    requires Composite(g, id) && id < |s| && !(throughPtr && g[id].name != 0) && k < |MembersIn(g[id])|
    requires NoneLeft(s[id := Ordering], t) && Blocked(g, t, MembersIn(g[id])[k].ty, false)
    ensures Blocked(g, s, id, throughPtr)
  {
    forall z: Id, n: nat | z < |t| && t[z] == Ordering && Needs(g, Strict, MembersIn(g[id])[k].ty, false, z, n)
      ensures Blocked(g, s, id, throughPtr)
    {
      if z == id {
        assert NeedsFirst(g, Strict, id, id, n);
      } else {
        assert Needs(g, Strict, id, throughPtr, z, n + 1);
      }
    }
  }

  /** Blocked before a call that left nothing half ordered. */
  lemma BlockedEarlier(g: Graph, s: seq<OrderState>, t: seq<OrderState>, id: Id, throughPtr: bool)
    requires NoneLeft(s, t) && Blocked(g, t, id, throughPtr)
    ensures Blocked(g, s, id, throughPtr)
  {
    hide Needs;
  }

  // ---------------------------------------------------------------- the code

  /** The part of `struct btf_dump` that ordering uses. */
  class BtfDump {
    const g: Graph
    ghost const rank: seq<nat>
    const referenced: seq<bool>
    const states: array<OrderState>
    var emitQueue: seq<Id>
    /** What earlier dumps have queued. */
    ghost var past: seq<Id>
    /** The pointers that were marked as ordered although the call behind them failed. */
    ghost var stale: set<Id>

    ghost predicate Shape()
      reads states
    {
      && Orderable(g, rank) && states.Length == |referenced| == |g|
      && states[0] == Ordered
      && forall i :: 0 <= i < |g| && states[i] == Ordering ==> Composite(g, i)
    }

    ghost predicate Inv()
      reads this, states
    {
      && Shape()
      && StalePointers(g, states[..], stale)
      && QueuedOnce(g, referenced, states[..], past + emitQueue)
      && AllSettled(g, Around(stale), states[..]) && InOrder(g, Around(stale), referenced, past + emitQueue)
    }

    /** The state of a new dumper, on the first call of `btf_dump__dump_type`. */
    constructor (g: Graph, ghost rank: seq<nat>, referenced: seq<bool>)
      requires Orderable(g, rank) && |referenced| == |g| && g[0] == VOID_DESC
      ensures Inv() && stale == {} && emitQueue == [] && past == [] && fresh(states)
      ensures this.g == g && this.referenced == referenced
      ensures forall i :: 0 <= i < |g| ==> states[i] == if i == 0 then Ordered else NotOrdered
    {
      this.g, this.rank, this.referenced := g, rank, referenced;
      states := new OrderState[|g|](i => if i == 0 then Ordered else NotOrdered);
      emitQueue, past, stale := [], [], {};
      new;
      InitialSettled(g, Around(stale), states[..]);
    }

    /** `btf_dump__dump_type` up to the emission of what is queued. Over all dumps, failed ones
        included, each definition is queued once, and every named struct or union comes behind
        all that its members need in place, but for what they need behind stale pointers. Only
        a failed dump turns pointers stale, and only those that its type leads to. A first dump
        fails only for a type loop or a stray void. */
    method DumpType(id: Id) returns (err: int)
      requires Inv()
      modifies this`emitQueue, this`past, this`stale, states
      ensures Inv() && past == old(past + emitQueue)
      ensures err <= 1 && (err >= 0 || id >= |g| ==> stale == old(stale))
      ensures id < |g| ==> Spoils(g, old(stale), stale, old(states[..]), id)
      ensures id < |g| && g[id].info.kind == PTR ==> IsOrdered(states[..], id) && (err < 0 ==> id in stale)
      ensures id >= |g| ==> err == -EINVAL && emitQueue == []
      ensures err >= 0 ==> id < |g| && NoneLeft(old(states[..]), states[..])
      ensures err >= 0 ==> Settled(g, Around(stale), states[..], id, false)
      ensures err >= 0 ==> AllDeclared(g, Around(stale), referenced, past + emitQueue, id)
      ensures DeclaredFirst(g, Around(stale), referenced, past + emitQueue)
      ensures id < |g| ==> Within(g, old(states[..]), states[..], id) && (err < 0 ==> Stuck(g, old(states[..]), id))
      ensures err < 0 && id < |g| ==> err == -ELOOP || (err == -EINVAL && HasVoid(g))
      ensures err == -ELOOP && (forall i :: 0 <= i < |g| ==> old(states[i]) != Ordering) ==>
                HasLoop(g) && exists p: seq<Use> :: IsLoop(g, p)
      ensures id < |g| && !HasVoid(g) && !HasLoop(g) && (forall i :: 0 <= i < |g| ==> old(states[i]) != Ordering) ==>
                err >= 0 && forall i :: 0 <= i < |g| ==> states[i] != Ordering
    {
      hide Orderable, Settled, AllSettled, InOrder, QueuedOnce, Needs, NeedsFirst;
      past := past + emitQueue;
      emitQueue := [];
      assert past + emitQueue == old(past + emitQueue);
      if id >= |g| {
        QueueDeclares(g, rank, Around(stale), referenced, past + emitQueue);
        return -EINVAL;
      }
      err := OrderType(id, false);
      Declares(id, err);
    }

    lemma Declares(id: Id, err: int)
      requires Inv()
      ensures DeclaredFirst(g, Around(stale), referenced, past + emitQueue)
      ensures Settled(g, Around(stale), states[..], id, false) ==>
                AllDeclared(g, Around(stale), referenced, past + emitQueue, id)
      ensures HasLoop(g) ==> exists p: seq<Use> :: IsLoop(g, p)
    {
      hide Orderable, Settled, AllSettled, InOrder, QueuedOnce, Needs, NeedsFirst, HasLoop, DeclaredFirst, AllDeclared,
          IsLoop;
      QueueDeclares(g, rank, Around(stale), referenced, past + emitQueue);
      if Settled(g, Around(stale), states[..], id, false) {
        SettledDeclares(g, rank, Around(stale), referenced, states[..], past + emitQueue, id);
      }
      if HasLoop(g) {
        LoopIsChain(g, rank);
      }
    }

    /** `btf_dump_add_emit_queue_id` */
    method AddEmitQueueId(id: Id)
      modifies this`emitQueue
      ensures emitQueue == old(emitQueue) + [id]
    {
      emitQueue := emitQueue + [id];
    }

    /** A type that queues nothing is done. */
    method Mark(id: Id)
      requires Inv() && id < |g| && !Queues(g, referenced, id) && !IsTypedef(g, id)
      requires Settled(g, Around(stale), states[..][id := Ordered], id, false)
      modifies states
      ensures Inv() && states[..] == old(states[..])[id := Ordered]
    {
      hide Orderable, Settled, AllSettled, InOrder, QueuedOnce, Queues;
      MarkQueued(g, referenced, states[..], past + emitQueue, id, Ordered);
      MarkSettled(g, Around(stale), states[..], id);
      states[id] := Ordered;
      assert states[..] == old(states[..])[id := Ordered];
    }

    /** A pointer is marked even if what it points to has failed: then it is stale. */
    method MarkPtr(id: Id, ghost failed: bool)
      requires Inv() && id < |g| && g[id].info.kind == PTR
      requires failed || Settled(g, Around(stale), states[..], g[id].word, true)
      modifies this`stale, states
      ensures Inv() && states[..] == old(states[..])[id := Ordered]
      ensures stale == if failed then old(stale) + {id} else old(stale)
    {
      hide Orderable, Settled, AllSettled, InOrder, QueuedOnce, Needs;
      ghost var now := if failed then stale + {id} else stale;
      OrderAround(g, stale, now, referenced, states[..], past + emitQueue);
      if !failed {
        SettledOrdering(g, Around(stale), states[..], id, g[id].word, true);
      }
      PtrSettled(g, Around(now), states[..][id := Ordered], id, false);
      MarkQueued(g, referenced, states[..], past + emitQueue, id, Ordered);
      MarkSettled(g, Around(now), states[..], id);
      stale := now;
      states[id] := Ordered;
      assert states[..] == old(states[..])[id := Ordered];
    }

    /** Queueing a typedef, and marking it as ordered. */
    method QueueAndMarkTypedef(id: Id)
      requires Inv() && IsTypedef(g, id)
      requires Settled(g, Around(stale), states[..], NextId(g[id]), false)
          && Settled(g, Around(stale), states[..][id := Ordered], id, false)
      modifies this`emitQueue, states
      ensures Inv() && states[..] == old(states[..])[id := Ordered] && emitQueue == old(emitQueue) + [id]
    {
      hide Orderable, Settled, AllSettled, InOrder, QueuedOnce, Queues;
      QueueTypedef(g, Around(stale), referenced, states[..], past + emitQueue, id);
      MarkSettled(g, Around(stale), states[..], id);
      assert past + (emitQueue + [id]) == past + emitQueue + [id];
      AddEmitQueueId(id);
      states[id] := Ordered;
      assert states[..] == old(states[..])[id := Ordered];
    }

    /** `btf_dump_order_type` */
    method OrderType(id: Id, throughPtr: bool) returns (err: int)
      requires Inv() && id < |g|
      modifies this`emitQueue, this`stale, states
      ensures Inv() && old(emitQueue) <= emitQueue
      ensures Outcome(g, old(stale), stale, old(states[..]), states[..], id, throughPtr, err)
      ensures err >= 0 ==> stale == old(stale)
      ensures g[id].info.kind == PTR ==> IsOrdered(states[..], id) && (err < 0 ==> id in stale)
      decreases Fresh(g, states[..]), rank[id], 2
    {
      hide Orderable, Settled, AllSettled, InOrder, QueuedOnce, Outcome, Fresh, Blocked, Needs;
      ghost var was, s := stale, states[..];
      if states[id] == Ordered {
        OrderedOutcome(id, throughPtr);
        return 1;
      }
      var t := g[id];
      if states[id] == Ordering {
        if IsComposite(t.info.kind) && throughPtr && t.name != 0 {
          WeakOutcome(id);
          return 0;
        }
        LoopOutcome(id, throughPtr);
        return -ELOOP;
      }
      match t.info.kind
      case INT =>
        LeafOutcome(id, throughPtr, 0);
        Mark(id);
        return 0;
      case PTR =>
        StepInRange(id);
        err := OrderType(t.word, true);
        PtrOutcome(was, s, id, throughPtr, err);
        MarkPtr(id, err < 0);
      case ARRAY =>
        StepInRange(id);
        err := OrderType(t.data.elem, throughPtr);
        StepOutcome(was, s, id, throughPtr, err);
      case STRUCT =>
        err := OrderComposite(id, throughPtr);
      case UNION =>
        err := OrderComposite(id, throughPtr);
      case ENUM =>
        err := OrderEnum(id, throughPtr);
      case FWD =>
        err := OrderEnum(id, throughPtr);
      case TYPEDEF =>
        err := OrderTypedef(id, throughPtr);
      case VOLATILE =>
        StepInRange(id);
        err := OrderType(t.word, throughPtr);
        StepOutcome(was, s, id, throughPtr, err);
      case CONST =>
        StepInRange(id);
        err := OrderType(t.word, throughPtr);
        StepOutcome(was, s, id, throughPtr, err);
      case RESTRICT =>
        StepInRange(id);
        err := OrderType(t.word, throughPtr);
        StepOutcome(was, s, id, throughPtr, err);
      case FUNC_PROTO =>
        err := OrderFuncProto(id, throughPtr);
      case FUNC =>
        LeafOutcome(id, throughPtr, 0);
        Mark(id);
        return 0;
      case VAR =>
        LeafOutcome(id, throughPtr, 0);
        Mark(id);
        return 0;
      case DATASEC =>
        LeafOutcome(id, throughPtr, 0);
        Mark(id);
        return 0;
      case VOID =>
        BadKindOutcome(id, throughPtr);
        return -EINVAL;
    }

    lemma OrderedOutcome(id: Id, throughPtr: bool)
      requires Inv() && id < |g| && states[id] == Ordered
      ensures Outcome(g, stale, stale, states[..], states[..], id, throughPtr, 1)
    {
      hide Needs, Orderable;
      assert IsOrdered(states[..], id);
      SettledWeaker(g, Around(stale), states[..], id);
    }

    lemma WeakOutcome(id: Id)
      requires Inv() && NamedComposite(g, id)
      ensures Outcome(g, stale, stale, states[..], states[..], id, true, 0)
    {
      hide Needs, Orderable;
      NamedBehindPtr(g, Around(stale), states[..], id);
    }

    lemma LoopOutcome(id: Id, throughPtr: bool)
      requires Shape() && id < |g| && states[id] == Ordering && !(throughPtr && g[id].name != 0)
      ensures Outcome(g, stale, stale, states[..], states[..], id, throughPtr, -ELOOP)
    {
      hide Orderable;
      assert Needs(g, Strict, id, throughPtr, id, 0);
      assert states[..][id] == Ordering;
    }

    lemma BadKindOutcome(id: Id, throughPtr: bool)
      requires Shape() && id < |g| && states[id] == NotOrdered && g[id].info.kind == VOID
      ensures Outcome(g, stale, stale, states[..], states[..], id, throughPtr, -EINVAL)
    {
    }

    lemma LeafOutcome(id: Id, throughPtr: bool, err: int)
      requires Shape() && id < |g| && states[id] == NotOrdered && 0 <= err <= 1
      requires !IsComposite(g[id].info.kind) && !IsStep(g[id].info.kind)
      ensures var t := states[..][id := Ordered];
        Settled(g, Around(stale), t, id, false) && Outcome(g, stale, stale, states[..], t, id, throughPtr, err)
    {
      hide Needs, Orderable;
      LeafSettled(g, Around(stale), states[..][id := Ordered], id, false);
      LeafSettled(g, Around(stale), states[..][id := Ordered], id, throughPtr);
    }

    lemma StepInRange(id: Id)
      requires Orderable(g, rank) && id < |g| && IsStep(g[id].info.kind)
      ensures NextId(g[id]) < |g| && id < |rank| && rank[NextId(g[id])] < rank[id]
      ensures g[id].info.kind == ARRAY <==> g[id].data.ArrayData?
      ensures g[id].info.kind != ARRAY ==> NextId(g[id]) == g[id].word
    {
    }

    /** After the call for what a pointer points to, before the pointer is marked. */
    lemma PtrOutcome(was: set<Id>, s: seq<OrderState>, id: Id, throughPtr: bool, err: int)
      requires Shape() && id < |g| && g[id].info.kind == PTR && |s| == |g| && s[id] == NotOrdered
      requires Outcome(g, was, stale, s, states[..], g[id].word, true, err) && NextId(g[id]) == g[id].word
      ensures err >= 0 ==> Settled(g, Around(stale), states[..], g[id].word, true)
      ensures var now := if err < 0 then stale + {id} else stale;
        Outcome(g, was, now, s, states[..][id := Ordered], id, throughPtr, err)
    {
      hide Needs, Orderable, Blocked;
      var t := states[..][id := Ordered];
      WithinNext(g, s, states[..], id, g[id].word);
      WithinOne(g, states[..], id, Ordered);
      WithinTwice(g, s, states[..], t, id);
      SpoilsNext(g, was, stale, s, s, id, g[id].word);
      if err < 0 {
        if err == -ELOOP { BlockedByStep(g, s, id, throughPtr, g[id].word, true); }
      } else {
        SettledOrdering(g, Around(stale), states[..], id, g[id].word, true);
        PtrSettled(g, Around(stale), t, id, false);
        PtrSettled(g, Around(stale), t, id, throughPtr);
      }
    }

    /** After the call for what an array or a qualifier applies to. */
    lemma StepOutcome(was: set<Id>, s: seq<OrderState>, id: Id, throughPtr: bool, err: int)
      requires id < |g| && !IsOrdered(s, id) && (g[id].info.kind == ARRAY || IsMod(g[id].info.kind))
      requires Outcome(g, was, stale, s, states[..], NextId(g[id]), throughPtr, err)
      ensures Outcome(g, was, stale, s, states[..], id, throughPtr, err)
    {
      hide Needs, Orderable, Blocked;
      WithinNext(g, s, states[..], id, NextId(g[id]));
      SpoilsNext(g, was, stale, s, s, id, NextId(g[id]));
      if err < 0 {
        if err == -ELOOP { BlockedByStep(g, s, id, throughPtr, NextId(g[id]), throughPtr); }
      } else {
        StepSettled(g, Around(stale), states[..], id, throughPtr);
        if err == 1 { StepSettled(g, Around(stale), states[..], id, false); }
      }
    }

    method OrderEnum(id: Id, throughPtr: bool) returns (err: int)
      requires Inv() && id < |g| && IsLone(g[id].info.kind) && states[id] == NotOrdered
      modifies this`emitQueue, states
      ensures Inv() && old(emitQueue) <= emitQueue && err >= 0
      ensures Outcome(g, old(stale), stale, old(states[..]), states[..], id, throughPtr, err)
    {
      hide Orderable, Settled, AllSettled, InOrder, QueuedOnce, Outcome;
      LeafOutcome(id, throughPtr, 1);
      if g[id].name != 0 || !referenced[id] {
        QueueAndMark(id);
      } else {
        Mark(id);
      }
      return 1;
    }

    /** Queueing a definition, and marking it as ordered. */
    method QueueAndMark(id: Id)
      requires Inv() && Queues(g, referenced, id) && states[id] != Ordered
      requires Settled(g, Around(stale), states[..][id := Ordered], id, false)
      requires NamedComposite(g, id) ==> MembersSettled(g, Around(stale), states[..], id)
      modifies this`emitQueue, states
      ensures Inv() && states[..] == old(states[..])[id := Ordered] && emitQueue == old(emitQueue) + [id]
    {
      hide Orderable, Settled, AllSettled, InOrder, QueuedOnce, MembersSettled;
      QueueInOrder(g, Around(stale), referenced, states[..], past + emitQueue, id);
      MarkSettled(g, Around(stale), states[..], id);
      assert past + (emitQueue + [id]) == past + emitQueue + [id];
      AddEmitQueueId(id);
      states[id] := Ordered;
      assert states[..] == old(states[..])[id := Ordered];
    }

    method OrderTypedef(id: Id, throughPtr: bool) returns (err: int)
      requires Inv() && id < |g| && g[id].info.kind == TYPEDEF && states[id] == NotOrdered
      modifies this`emitQueue, this`stale, states
      ensures Inv() && old(emitQueue) <= emitQueue
      ensures Outcome(g, old(stale), stale, old(states[..]), states[..], id, throughPtr, err)
      ensures err >= 0 ==> stale == old(stale)
      decreases Fresh(g, states[..]), rank[id], 1
    {
      hide Orderable, Settled, AllSettled, InOrder, QueuedOnce, Outcome, Fresh;
      ghost var was, s := stale, states[..];
      StepInRange(id);
      var isStrong := OrderType(g[id].word, throughPtr);
      TypedefOutcome(was, s, id, throughPtr, isStrong);
      if isStrong < 0 {
        return isStrong;
      }
      if throughPtr && isStrong == 0 {
        return 0;
      }
      QueueAndMarkTypedef(id);
      return 1;
    }

    lemma TypedefOutcome(was: set<Id>, s: seq<OrderState>, id: Id, throughPtr: bool, strong: int)
      requires Shape() && id < |g| && g[id].info.kind == TYPEDEF && |s| == |g| && s[id] == NotOrdered
      requires Outcome(g, was, stale, s, states[..], g[id].word, throughPtr, strong) && NextId(g[id]) == g[id].word
      ensures strong < 0 || strong == 0 ==> Outcome(g, was, stale, s, states[..], id, throughPtr, strong)
      ensures strong >= 0 && !(throughPtr && strong == 0) ==>
        var t := states[..][id := Ordered];
        Outcome(g, was, stale, s, t, id, throughPtr, 1)
        && Settled(g, Around(stale), states[..], NextId(g[id]), false) && Settled(g, Around(stale), t, id, false)
    {
      hide Needs, Orderable, Blocked;
      var t := states[..][id := Ordered];
      WithinNext(g, s, states[..], id, NextId(g[id]));
      WithinOne(g, states[..], id, Ordered);
      WithinTwice(g, s, states[..], t, id);
      SpoilsNext(g, was, stale, s, s, id, NextId(g[id]));
      if strong < 0 {
        if strong == -ELOOP { BlockedByStep(g, s, id, throughPtr, g[id].word, throughPtr); }
      } else {
        StepSettled(g, Around(stale), states[..], id, throughPtr);
        if !(throughPtr && strong == 0) {
          SettledOrdering(g, Around(stale), states[..], id, g[id].word, false);
          StepSettled(g, Around(stale), t, id, false);
          SettledWeaker(g, Around(stale), t, id);
        }
      }
    }

    method OrderComposite(id: Id, throughPtr: bool) returns (err: int)
      requires Inv() && Composite(g, id) && states[id] == NotOrdered
      modifies this`emitQueue, this`stale, states
      ensures Inv() && old(emitQueue) <= emitQueue
      ensures Outcome(g, old(stale), stale, old(states[..]), states[..], id, throughPtr, err)
      ensures err >= 0 ==> stale == old(stale)
      decreases Fresh(g, states[..]), rank[id], 1
    {
      hide Orderable, Settled, AllSettled, InOrder, QueuedOnce, Outcome, Fresh, Queues, Advances, NoneLeft,
          MembersSettled, NamedComposite;
      ghost var was, s := stale, states[..];
      if throughPtr && g[id].name != 0 {
        NamedIs(id);
        WeakOutcome(id);
        return 0;
      }
      FreshEntered(g, s, id);
      Enter(id);
      ghost var entered := states[..];
      Unmoved(entered);
      WithinOne(g, s, id, Ordering);
      var vlen := |MembersIn(g[id])|;
      for i := 0 to vlen
        invariant Inv() && stale == old(stale) && old(emitQueue) <= emitQueue
        invariant Advances(entered, states[..]) && NoneLeft(entered, states[..])
        invariant SettledUpTo(g, Around(stale), states[..], id, i)
        invariant Within(g, s, states[..], id)
        modifies this`emitQueue, this`stale, states
      {
        ghost var before := states[..];
        MemberInRange(id, i);
        FreshShrinks(g, entered, before);
        err := OrderType(MembersIn(g[id])[i].ty, false);
        if err < 0 {
          MemberFailed(was, s, entered, before, id, throughPtr, i, err);
          return;
        }
        MemberDone(was, s, entered, before, id, i, err);
      }
      AllMembersDone(s, entered, id, throughPtr);
      NamedIs(id);
      if g[id].name != 0 {
        QueueAndMark(id);
      } else {
        Mark(id);
      }
      return 1;
    }

    lemma NamedIs(id: Id)
      requires Composite(g, id)
      ensures g[id].name != 0 <==> NamedComposite(g, id)
      ensures g[id].name != 0 <==> Queues(g, referenced, id)
    {
    }

    lemma Unmoved(s: seq<OrderState>)
      ensures Advances(s, s) && NoneLeft(s, s)
    {
    }

    lemma MemberInRange(id: Id, k: nat)
      requires Orderable(g, rank) && id < |g| && k < |MembersIn(g[id])|
      ensures MembersIn(g[id])[k].ty < |g| == |rank|
    {
    }

    /** `tstate->order_state = ORDERING` */
    method Enter(id: Id)
      requires Inv() && Composite(g, id) && states[id] == NotOrdered
      modifies states
      ensures Inv() && states[..] == old(states[..])[id := Ordering]
    {
      hide Orderable, Settled, InOrder, QueuedOnce, Queues;
      MarkQueued(g, referenced, states[..], past + emitQueue, id, Ordering);
      EnterSettled(g, Around(stale), states[..], id);
      states[id] := Ordering;
      assert states[..] == old(states[..])[id := Ordering];
    }

    lemma MemberFailed(was: set<Id>, s: seq<OrderState>, entered: seq<OrderState>, before: seq<OrderState>, id: Id,
        throughPtr: bool, k: nat, err: int)
      requires Composite(g, id) && |s| == |g| && s[id] == NotOrdered && entered == s[id := Ordering]
          && !(throughPtr && g[id].name != 0)
      requires Advances(entered, before) && NoneLeft(entered, before) && k < |MembersIn(g[id])|
      requires Outcome(g, was, stale, before, states[..], MembersIn(g[id])[k].ty, false, err) && err < 0
      requires Within(g, s, before, id)
      ensures Outcome(g, was, stale, s, states[..], id, throughPtr, err)
    {
      hide Needs, Blocked;
      WithinNext(g, before, states[..], id, MembersIn(g[id])[k].ty);
      SpoilsNext(g, was, stale, s, before, id, MembersIn(g[id])[k].ty);
      WithinTwice(g, s, before, states[..], id);
      assert !IsOrdered(s, MembersIn(g[id])[k].ty);
      if err == -ELOOP {
        BlockedByMember(g, s, before, id, throughPtr, k);
      }
    }

    lemma MemberDone(was: set<Id>, s: seq<OrderState>, entered: seq<OrderState>, before: seq<OrderState>, id: Id,
        k: nat, err: int)
      requires id < |g| && k < |MembersIn(g[id])|
      requires Advances(entered, before) && NoneLeft(entered, before)
      requires Outcome(g, was, stale, before, states[..], MembersIn(g[id])[k].ty, false, err) && err >= 0
      requires SettledUpTo(g, Around(stale), before, id, k)
      requires Within(g, s, before, id)
      ensures Within(g, s, states[..], id)
      ensures Advances(entered, states[..]) && NoneLeft(entered, states[..])
      ensures SettledUpTo(g, Around(stale), states[..], id, k + 1)
    {
      hide Settled, Blocked;
      AdvancesTwice(entered, before, states[..]);
      WithinNext(g, before, states[..], id, MembersIn(g[id])[k].ty);
      WithinTwice(g, s, before, states[..], id);
      forall j | 0 <= j <= k ensures Settled(g, Around(stale), states[..], MembersIn(g[id])[j].ty, false) {
        if j < k { SettledGrows(g, Around(stale), before, states[..], MembersIn(g[id])[j].ty, false); }
      }
    }

    lemma AllMembersDone(s: seq<OrderState>, entered: seq<OrderState>, id: Id, throughPtr: bool)
      requires Composite(g, id) && |s| == |g| && s[id] == NotOrdered && entered == s[id := Ordering]
      requires Advances(entered, states[..]) && NoneLeft(entered, states[..])
      requires SettledUpTo(g, Around(stale), states[..], id, |MembersIn(g[id])|) && Within(g, s, states[..], id)
      ensures states[..][id] == Ordering
      ensures var t := states[..][id := Ordered];
        && Outcome(g, stale, stale, s, t, id, throughPtr, 1)
        && Settled(g, Around(stale), t, id, false) && MembersSettled(g, Around(stale), states[..], id)
    {
      hide Settled, Blocked;
      var t := states[..][id := Ordered];
      WithinOne(g, states[..], id, Ordered);
      WithinTwice(g, s, states[..], t, id);
      forall k | 0 <= k < |MembersIn(g[id])| ensures Settled(g, Around(stale), t, MembersIn(g[id])[k].ty, false) {
        SettledOrdering(g, Around(stale), states[..], id, MembersIn(g[id])[k].ty, false);
      }
      CompositeSettled(g, Around(stale), t, id, false);
      CompositeSettled(g, Around(stale), t, id, throughPtr);
    }

    method OrderFuncProto(id: Id, throughPtr: bool) returns (err: int)
      requires Inv() && id < |g| && g[id].info.kind == FUNC_PROTO && states[id] == NotOrdered
      modifies this`emitQueue, this`stale, states
      ensures Inv() && old(emitQueue) <= emitQueue
      ensures Outcome(g, old(stale), stale, old(states[..]), states[..], id, throughPtr, err)
      ensures err >= 0 ==> stale == old(stale)
      decreases Fresh(g, states[..]), rank[id], 1
    {
      hide Orderable, Settled, AllSettled, InOrder, QueuedOnce, Outcome, Fresh, Queues, Advances, NoneLeft;
      ghost var was, s := stale, states[..];
      Unmoved(s);
      StepInRange(id);
      err := OrderType(g[id].word, throughPtr);
      if err < 0 {
        ProtoFailed(was, s, s, id, throughPtr, g[id].word, err);
        return;
      }
      var isStrong := err > 0;
      ProtoBegun(was, s, id, throughPtr, err);
      var vlen := |ParamsOf(g[id])|;
      for i := 0 to vlen
        invariant Inv() && stale == old(stale) && old(emitQueue) <= emitQueue
        invariant Advances(s, states[..]) && NoneLeft(s, states[..])
        invariant ProtoUpTo(g, Around(stale), states[..], id, i) && Within(g, s, states[..], id)
        modifies this`emitQueue, this`stale, states
      {
        ghost var before := states[..];
        ParamInRange(id, i);
        FreshShrinks(g, s, before);
        err := OrderType(ParamsOf(g[id])[i].ty, throughPtr);
        if err < 0 {
          ParamOf(id, i);
          ProtoFailed(was, s, before, id, throughPtr, ParamsOf(g[id])[i].ty, err);
          return;
        }
        ParamDone(was, s, before, id, throughPtr, i, err);
        if err > 0 {
          isStrong := true;
        }
      }
      ProtoDone(s, id, throughPtr, if isStrong then 1 else 0);
      return if isStrong then 1 else 0;
    }

    lemma ParamInRange(id: Id, k: nat)
      requires Orderable(g, rank) && id < |g| && k < |ParamsOf(g[id])|
      ensures ParamsOf(g[id])[k].ty < |g| == |rank| && rank[ParamsOf(g[id])[k].ty] < rank[id]
    {
    }

    /** A type that the prototype mentions. */
    ghost predicate Mentions(id: Id, x: Id)
      requires id < |g|
    {
      x == g[id].word || exists k :: 0 <= k < |ParamsOf(g[id])| && ParamsOf(g[id])[k].ty == x
    }

    lemma ParamOf(id: Id, k: nat)
      requires id < |g| && k < |ParamsOf(g[id])|
      ensures Mentions(id, ParamsOf(g[id])[k].ty)
    {
    }

    lemma ProtoFailed(was: set<Id>, s: seq<OrderState>, before: seq<OrderState>, id: Id, throughPtr: bool, next: Id,
        err: int)
      requires id < |g| && g[id].info.kind == FUNC_PROTO && Mentions(id, next)
      requires Advances(s, before) && NoneLeft(s, before) && Within(g, s, before, id) && !IsOrdered(s, id)
          && NextId(g[id]) == g[id].word
      requires Outcome(g, was, stale, before, states[..], next, throughPtr, err) && err < 0
      ensures Outcome(g, was, stale, s, states[..], id, throughPtr, err)
    {
      hide Needs, Blocked;
      AdvancesTwice(s, before, states[..]);
      WithinNext(g, before, states[..], id, next);
      SpoilsNext(g, was, stale, s, before, id, next);
      WithinTwice(g, s, before, states[..], id);
      if err == -ELOOP {
        BlockedEarlier(g, s, before, next, throughPtr);
        BlockedByStep(g, s, id, throughPtr, next, throughPtr);
      }
    }

    lemma ProtoBegun(was: set<Id>, s: seq<OrderState>, id: Id, throughPtr: bool, err: int)
      requires id < |g| && Outcome(g, was, stale, s, states[..], g[id].word, throughPtr, err) && err >= 0
      requires IsStep(g[id].info.kind) && NextId(g[id]) == g[id].word
      ensures Advances(s, states[..]) && NoneLeft(s, states[..]) && Within(g, s, states[..], id)
      ensures ProtoUpTo(g, Around(stale), states[..], id, 0)
    {
      hide Needs, Blocked, Settled;
      WithinNext(g, s, states[..], id, g[id].word);
      if !throughPtr {
        SettledWeaker(g, Around(stale), states[..], g[id].word);
      }
    }

    lemma ParamDone(was: set<Id>, s: seq<OrderState>, before: seq<OrderState>, id: Id, throughPtr: bool, k: nat,
        err: int)
      requires id < |g| && k < |ParamsOf(g[id])|
      requires Advances(s, before) && NoneLeft(s, before)
      requires Outcome(g, was, stale, before, states[..], ParamsOf(g[id])[k].ty, throughPtr, err) && err >= 0
      requires ProtoUpTo(g, Around(stale), before, id, k) && Within(g, s, before, id)
      ensures Advances(s, states[..]) && NoneLeft(s, states[..]) && Within(g, s, states[..], id)
      ensures ProtoUpTo(g, Around(stale), states[..], id, k + 1)
    {
      hide Settled, Blocked;
      AdvancesTwice(s, before, states[..]);
      WithinNext(g, before, states[..], id, ParamsOf(g[id])[k].ty);
      WithinTwice(g, s, before, states[..], id);
      SettledGrows(g, Around(stale), before, states[..], g[id].word, true);
      forall j | 0 <= j <= k ensures Settled(g, Around(stale), states[..], ParamsOf(g[id])[j].ty, true) {
        if j < k {
          SettledGrows(g, Around(stale), before, states[..], ParamsOf(g[id])[j].ty, true);
        } else if !throughPtr {
          SettledWeaker(g, Around(stale), states[..], ParamsOf(g[id])[k].ty);
        }
      }
    }

    lemma ProtoDone(s: seq<OrderState>, id: Id, throughPtr: bool, err: int)
      requires id < |g| && g[id].info.kind == FUNC_PROTO && 0 <= err <= 1
      requires Advances(s, states[..]) && NoneLeft(s, states[..])
      requires ProtoUpTo(g, Around(stale), states[..], id, |ParamsOf(g[id])|) && Within(g, s, states[..], id)
      ensures Outcome(g, stale, stale, s, states[..], id, throughPtr, err)
    {
      hide Settled, Blocked;
      ProtoSettled(g, Around(stale), states[..], id, throughPtr);
      ProtoSettled(g, Around(stale), states[..], id, false);
    }
  }

  /** What is ordered around some pointers is ordered around more of them. */
  lemma OrderAround(g: Graph, a: set<Id>, b: set<Id>, refd: seq<bool>, s: seq<OrderState>, h: seq<Id>)
    requires a <= b
    ensures AllSettled(g, Around(a), s) ==> AllSettled(g, Around(b), s)
    ensures InOrder(g, Around(a), refd, h) ==> InOrder(g, Around(b), refd, h)
  {
    hide Needs;
    if AllSettled(g, Around(a), s) {
      forall x: Id, z: Id, n: nat | IsOrdered(s, x) && Needs(g, Around(b), x, false, z, n) ensures IsOrdered(s, z) {
        NeedsFurther(g, a, b, x, false, z, n);
        assert Settled(g, Around(a), s, x, false);
      }
    }
    if InOrder(g, Around(a), refd, h) {
      forall j, z: Id, n: nat | 0 <= j < |h| && IsNamed(g, h[j]) && Queues(g, refd, z)
          && NeedsFirst(g, Around(b), h[j], z, n)
        ensures z in h[..j]
      {
        FirstFurther(g, a, b, h[j], z, n);
      }
    }
  }

  lemma FirstFurther(g: Graph, a: set<Id>, b: set<Id>, y: Id, z: Id, n: nat)
    requires a <= b && NeedsFirst(g, Around(b), y, z, n)
    ensures NeedsFirst(g, Around(a), y, z, n)
  {
    hide Needs;
    if IsTypedef(g, y) && Needs(g, Around(b), NextId(g[y]), false, z, n) {
      NeedsFurther(g, a, b, NextId(g[y]), false, z, n);
    } else {
      var k :| 0 <= k < |MembersIn(g[y])| && Needs(g, Around(b), MembersIn(g[y])[k].ty, false, z, n);
      NeedsFurther(g, a, b, MembersIn(g[y])[k].ty, false, z, n);
    }
  }

  ghost predicate SettledUpTo(g: Graph, r: Reach, s: seq<OrderState>, id: Id, n: nat) {
    id < |g| && n <= |MembersIn(g[id])| && forall k :: 0 <= k < n ==> Settled(g, r, s, MembersIn(g[id])[k].ty, false)
  }

  ghost predicate ProtoUpTo(g: Graph, r: Reach, s: seq<OrderState>, id: Id, n: nat) {
    && id < |g| && n <= |ParamsOf(g[id])| && Settled(g, r, s, g[id].word, true)
    && forall k :: 0 <= k < n ==> Settled(g, r, s, ParamsOf(g[id])[k].ty, true)
  }

  lemma EnterSettled(g: Graph, r: Reach, s: seq<OrderState>, id: Id)
    requires id < |s| && s[id] != Ordered && AllSettled(g, r, s)
    ensures AllSettled(g, r, s[id := Ordering])
  {
    hide Needs;
    var t := s[id := Ordering];
    forall x: Id | IsOrdered(t, x) ensures Settled(g, r, t, x, false) {
      assert IsOrdered(s, x);
      forall z: Id, n: nat | Needs(g, r, x, false, z, n) ensures IsOrdered(t, z) {
        assert IsOrdered(s, z);
      }
    }
  }

  lemma SettledOrdering(g: Graph, r: Reach, s: seq<OrderState>, id: Id, x: Id, throughPtr: bool)
    requires id < |s| && Settled(g, r, s, x, throughPtr)
    ensures Settled(g, r, s[id := Ordered], x, throughPtr)
  {
    hide Needs;
  }

  lemma InitialSettled(g: Graph, r: Reach, s: seq<OrderState>)
    requires |g| == |s| > 0 && g[0] == VOID_DESC && forall i :: 0 <= i < |s| ==> (s[i] == Ordered <==> i == 0)
    ensures AllSettled(g, r, s)
  {
    forall x: Id | IsOrdered(s, x) ensures Settled(g, r, s, x, false) {
      forall z: Id, n: nat | Needs(g, r, x, false, z, n) ensures IsOrdered(s, z) {
        assert x == 0;
        assert g[x].info.kind == VOID;
      }
    }
  }

  /** What the invariant says about a list of everything queued so far: a named struct or
      union stands in it once, behind every definition that its members need, so it does not
      need itself. */
  lemma QueueIsSorted(g: Graph, r: Reach, refd: seq<bool>, s: seq<OrderState>, h: seq<Id>, y: Id, z: Id, n: nat)
    requires QueuedOnce(g, refd, s, h) && InOrder(g, r, refd, h) && y in h && NamedComposite(g, y)
    requires Queues(g, refd, z) && NeedsFirst(g, r, y, z, n)
    ensures y != z
    ensures exists i, j :: 0 <= i < j < |h| && h[i] == z && h[j] == y && forall k :: 0 <= k < |h| && k != j ==>
        h[k] != y
  {
    hide Needs, NeedsFirst;
    NamedQueues(g, refd, y);
    var j :| 0 <= j < |h| && h[j] == y;
    assert z in h[..j];
    var i :| 0 <= i < j && h[i] == z;
  }

  // ---------------------------------------------------------------- stale pointers

  /** Behind stale pointer `p`, the definition of `z` is needed in place. */
  ghost predicate BehindStale(g: Graph, stale: set<Id>, p: Id, z: Id, m: nat) {
    p in stale && p < |g| && g[p].info.kind == PTR && Needs(g, IN_PLACE, g[p].word, true, z, m)
  }

  /** Whatever a queued type needs in place behind a stale pointer is queued before it. */
  ghost predicate StaleInOrder(g: Graph, stale: set<Id>, refd: seq<bool>, h: seq<Id>) {
    forall j, p: Id, k: nat, z: Id, m: nat ::
        0 <= j < |h| && IsNamed(g, h[j]) && Queues(g, refd, z) && NeedsFirst(g, Around(stale), h[j], p, k)
            && BehindStale(g, stale, p, z, m) ==>
          z in h[..j]
  }

  /** What is needed in place is needed around the stale pointers or behind one of them. */
  lemma {:induction false} AroundOrBehind(g: Graph, stale: set<Id>, id: Id, throughPtr: bool, z: Id, n: nat)
      returns (p: Id, k: nat, m: nat)
    requires Needs(g, IN_PLACE, id, throughPtr, z, n)
    ensures Needs(g, Around(stale), id, throughPtr, z, n)
            || (Needs(g, Around(stale), id, throughPtr, p, k) && BehindStale(g, stale, p, z, m))
    decreases n
  {
    hide Needs, IsPart;
    p, k, m := id, 0, 0;
    if Itself(g, id, throughPtr, z) {
      ItselfNeeded(g, Around(stale), id, throughPtr, n);
    } else {
      var x, xThroughPtr := NeedsPart(g, IN_PLACE, id, throughPtr, z, n);
      if Reaches(g, Around(stale), id) {
        p, k, m := AroundOrBehind(g, stale, x, xThroughPtr, z, n - 1);
        if Needs(g, Around(stale), x, xThroughPtr, z, n - 1) {
          PartNeeded(g, Around(stale), id, throughPtr, x, xThroughPtr, z, n - 1);
        } else {
          PartNeeded(g, Around(stale), id, throughPtr, x, xThroughPtr, p, k);
          k := k + 1;
        }
      } else {
        PointerPart(g, id, throughPtr, x, xThroughPtr);
        ItselfNeeded(g, Around(stale), id, throughPtr, 0);
        m := n - 1;
      }
    }
  }

  lemma PointerPart(g: Graph, id: Id, throughPtr: bool, x: Id, xThroughPtr: bool)
    requires id < |g| && g[id].info.kind == PTR
    ensures Itself(g, id, throughPtr, id)
    ensures IsPart(g, id, throughPtr, x, xThroughPtr) <==> x == g[id].word && xThroughPtr
  {
  }

  /** Where a stale pointer is needed, all that is needed in place behind it is needed in place. */
  lemma {:induction false} ThroughStale(g: Graph, stale: set<Id>, id: Id, throughPtr: bool, p: Id, k: nat, z: Id,
      m: nat) returns (n: nat)
    requires Needs(g, Around(stale), id, throughPtr, p, k) && BehindStale(g, stale, p, z, m)
    ensures Needs(g, IN_PLACE, id, throughPtr, z, n)
    decreases k
  {
    hide Needs, IsPart;
    var x, xThroughPtr := g[p].word, true;
    if Itself(g, id, throughPtr, p) {
      n := m;
      PointerPart(g, p, throughPtr, x, xThroughPtr);
    } else {
      x, xThroughPtr := NeedsPart(g, Around(stale), id, throughPtr, p, k);
      n := ThroughStale(g, stale, x, xThroughPtr, p, k - 1, z, m);
    }
    PartNeeded(g, IN_PLACE, id, throughPtr, x, xThroughPtr, z, n);
    n := n + 1;
  }

  lemma FirstAroundOrBehind(g: Graph, stale: set<Id>, y: Id, z: Id, n: nat) returns (p: Id, k: nat, m: nat)
    requires NeedsFirst(g, IN_PLACE, y, z, n)
    ensures NeedsFirst(g, Around(stale), y, z, n)
            || (NeedsFirst(g, Around(stale), y, p, k) && BehindStale(g, stale, p, z, m))
  {
    hide Needs, BehindStale;
    if IsTypedef(g, y) && Needs(g, IN_PLACE, NextId(g[y]), false, z, n) {
      p, k, m := AroundOrBehind(g, stale, NextId(g[y]), false, z, n);
    } else {
      var i :| 0 <= i < |MembersIn(g[y])| && Needs(g, IN_PLACE, MembersIn(g[y])[i].ty, false, z, n);
      p, k, m := AroundOrBehind(g, stale, MembersIn(g[y])[i].ty, false, z, n);
    }
  }

  lemma FirstThroughStale(g: Graph, stale: set<Id>, y: Id, p: Id, k: nat, z: Id, m: nat) returns (n: nat)
    requires NeedsFirst(g, Around(stale), y, p, k) && BehindStale(g, stale, p, z, m)
    ensures NeedsFirst(g, IN_PLACE, y, z, n)
  {
    hide Needs, BehindStale;
    if IsTypedef(g, y) && Needs(g, Around(stale), NextId(g[y]), false, p, k) {
      n := ThroughStale(g, stale, NextId(g[y]), false, p, k, z, m);
    } else {
      var i :| 0 <= i < |MembersIn(g[y])| && Needs(g, Around(stale), MembersIn(g[y])[i].ty, false, p, k);
      n := ThroughStale(g, stale, MembersIn(g[y])[i].ty, false, p, k, z, m);
    }
  }

  /** When the whole queue is in order in place, behind stale pointers as well: exactly if
      whatever a queued type needs in place behind one of them is queued before it. */
  lemma InPlaceExact(g: Graph, stale: set<Id>, refd: seq<bool>, h: seq<Id>)
    requires InOrder(g, Around(stale), refd, h)
    ensures InOrder(g, IN_PLACE, refd, h) <==> StaleInOrder(g, stale, refd, h)
  {
    hide Needs, NeedsFirst, BehindStale, Queues, IsNamed;
    if InOrder(g, IN_PLACE, refd, h) {
      forall j, p: Id, k: nat, z: Id, m: nat | 0 <= j < |h| && IsNamed(g, h[j]) && Queues(g, refd, z)
          && NeedsFirst(g, Around(stale), h[j], p, k) && BehindStale(g, stale, p, z, m)
        ensures z in h[..j]
      {
        var n := FirstThroughStale(g, stale, h[j], p, k, z, m);
      }
    }
    if StaleInOrder(g, stale, refd, h) {
      forall j, z: Id, n: nat | 0 <= j < |h| && IsNamed(g, h[j]) && Queues(g, refd, z)
          && NeedsFirst(g, IN_PLACE, h[j], z, n)
        ensures z in h[..j]
      {
        var p, k, m := FirstAroundOrBehind(g, stale, h[j], z, n);
      }
    }
  }

  /** The same for the states: what ordered types need in place is ordered exactly if this is so
      of what the stale pointers need. */
  lemma StatesInPlaceExact(g: Graph, stale: set<Id>, s: seq<OrderState>)
    requires AllSettled(g, Around(stale), s) && StalePointers(g, s, stale)
    ensures AllSettled(g, IN_PLACE, s) <==> forall p :: p in stale ==> Settled(g, IN_PLACE, s, g[p].word, true)
  {
    hide Needs;
    if AllSettled(g, IN_PLACE, s) {
      forall p, z: Id, n: nat | p in stale && Needs(g, IN_PLACE, g[p].word, true, z, n) ensures IsOrdered(s, z) {
        NeedsAtPtr(g, p, z, n);
        assert Settled(g, IN_PLACE, s, p, false);
      }
    }
    if forall p :: p in stale ==> Settled(g, IN_PLACE, s, g[p].word, true) {
      forall x: Id, z: Id, n: nat | IsOrdered(s, x) && Needs(g, IN_PLACE, x, false, z, n) ensures IsOrdered(s, z) {
        var p, k, m := AroundOrBehind(g, stale, x, false, z, n);
        assert Settled(g, Around(stale), s, x, false);
      }
    }
  }

  lemma NeedsAtPtr(g: Graph, p: Id, z: Id, n: nat)
    requires p < |g| && g[p].info.kind == PTR && Needs(g, IN_PLACE, g[p].word, true, z, n)
    ensures Needs(g, IN_PLACE, p, false, z, n + 1)
  {
  }

  lemma SettledHas(g: Graph, r: Reach, s: seq<OrderState>, id: Id, throughPtr: bool, z: Id, n: nat)
    requires Settled(g, r, s, id, throughPtr) && Needs(g, r, id, throughPtr, z, n)
    ensures IsOrdered(s, z)
  {
  }

  function Struct(name: nat, member: Id): Desc {
    Desc(name, Info(STRUCT, 1, false, 0), 8, Members([Member(9, member, 0)]))
  }

  /** `struct loop` (1) contains itself; 3 points to an anonymous struct (2) that contains
      `struct loop`; `struct s` (4) has a member of type 3. */
  function Stale(): Graph {
    [VOID_DESC, Struct(1, 1), Struct(0, 1), Desc(0, Info(PTR, 0, false, 0), 2, NoData), Struct(2, 3)]
  }

  lemma StaleFacts()
    ensures var g := Stale();
            && |g| == 5 && g[0] == VOID_DESC && g[1].name == 1 && g[2].name == 0 && g[4].name == 2 && g[3].word == 2
            && g[1].info.kind == g[2].info.kind == g[4].info.kind == STRUCT && g[3].info.kind == PTR
                && !g[3].data.ArrayData?
            && (forall i: Id :: i < 5 ==> ParamsOf(g[i]) == [] && |MembersIn(g[i])| == if i == 0 || i == 3 then 0
                else 1)
            && MembersIn(g[1])[0].ty == 1 && MembersIn(g[2])[0].ty == 1 && MembersIn(g[4])[0].ty == 3
  {
  }

  lemma StaleOrderable()
    ensures Orderable(Stale(), [0, 0, 0, 1, 0])
  {
    hide Stale, MembersIn, ParamsOf;
    StaleFacts();
    var rank := [0, 0, 0, 1, 0];
    assert rank[2] < rank[3] && NextId(Stale()[3]) == 2;
  }

  lemma StaleApart()
    ensures Hereditary(Stale(), {0, 1, 2, 3})
  {
    hide Stale, MembersIn, ParamsOf;
    StaleFacts();
    var g, c: set<Id> := Stale(), {0, 1, 2, 3};
    assert LeadsInto(g, 0, c) && LeadsInto(g, 1, c) && LeadsInto(g, 2, c) && LeadsInto(g, 3, c);
  }

  lemma StaleNoVoid()
    ensures !HasVoid(Stale())
  {
    hide Stale, MembersIn, ParamsOf;
    StaleFacts();
  }

  lemma StaleNeeds()
    ensures Orderable(Stale(), [0, 0, 0, 1, 0]) && !HasVoid(Stale()) && |Stale()| == 5
        && Hereditary(Stale(), {0, 1, 2, 3})
    ensures Stale()[0] == VOID_DESC && NamedComposite(Stale(), 1) && NamedComposite(Stale(), 4)
    ensures forall p: Id :: p < 5 ==> (Stale()[p].info.kind == PTR <==> p == 3)
    ensures Needs(Stale(), IN_PLACE, 3, false, 1, 2) && NeedsFirst(Stale(), IN_PLACE, 4, 1, 2)
        && NeedsFirst(Stale(), IN_PLACE, 1, 1, 0)
    ensures BehindStale(Stale(), {3}, 3, 1, 1) && NeedsFirst(Stale(), Around({3}), 4, 3, 0)
    ensures |MembersIn(Stale()[4])| == 1 && MembersIn(Stale()[4])[0].ty == 3
    ensures forall r: Reach :: Needs(Stale(), r, 4, false, 4, 0)
  {
    hide Stale, MembersIn, ParamsOf, Orderable, Hereditary, HasVoid;
    StaleFacts();
    StaleOrderable();
    StaleApart();
    assert !HasVoid(Stale()) by { StaleNoVoid(); }
    var g := Stale();
    assert Needs(g, IN_PLACE, 1, false, 1, 0);
    assert Needs(g, IN_PLACE, 2, true, 1, 1);
    assert Needs(g, IN_PLACE, 3, false, 1, 2);
    assert Needs(g, Around({3}), 3, false, 3, 0);
  }

  lemma NeverQueued(stale: set<Id>, refd: seq<bool>, s: seq<OrderState>, h: seq<Id>)
    requires QueuedOnce(Stale(), refd, s, h) && InOrder(Stale(), Around(stale), refd, h)
    ensures 1 !in h
  {
    StaleNeeds();
    assert NeedsFirst(Stale(), Around(stale), 1, 1, 0) by {
      assert MembersIn(Stale()[1])[0].ty == 1;
      assert Needs(Stale(), Around(stale), 1, false, 1, 0);
    }
    hide Stale, QueuedOnce, InOrder, Needs, NeedsFirst;
    NamedQueues(Stale(), refd, 1);
    if 1 in h {
      QueueIsSorted(Stale(), Around(stale), refd, s, h, 1, 1, 0);
    }
  }

  /** A failed dump leaves a stale pointer behind, and then the order in place is lost: the first
      dump fails in the anonymous struct, the second one queues `struct s`, and what `s` needs in
      place behind that pointer is never queued. */
  method StalePointer() returns (first: int, second: int, queue: seq<Id>, ghost stale: set<Id>)
    ensures first == -ELOOP && second >= 0 && 4 in queue && 1 !in queue
    ensures stale == {3} && NeedsFirst(Stale(), Around(stale), 4, 3, 0) && BehindStale(Stale(), stale, 3, 1, 1)
    ensures NeedsFirst(Stale(), IN_PLACE, 4, 1, 2) && NamedComposite(Stale(), 4) && NamedComposite(Stale(), 1)
  {
    StaleNeeds();
    hide Stale, Orderable, QueuedOnce, InOrder, AllSettled, Settled, Needs, NeedsFirst, HasVoid, HasLoop, Hereditary,
        Queues, NamedComposite, BehindStale, Spoils;
    var d := new BtfDump(Stale(), [0, 0, 0, 1, 0], [false, false, false, false, false]);
    ghost var s0 := d.states[..];
    NothingQueued(d);
    first := d.DumpType(3);
    ghost var s1 := d.states[..];
    FirstFails(d, s0, first);
    NamedQueues(Stale(), d.referenced, 4);
    second := d.DumpType(4);
    SecondGoesOn(d, s1, second);
    queue, stale := d.emitQueue, d.stale;
  }

  lemma NothingQueued(d: BtfDump)
    requires d.Inv() && d.g == Stale() && d.emitQueue == [] && d.past == []
    ensures d.past + d.emitQueue == []
  {
  }

  lemma FirstFails(d: BtfDump, s0: seq<OrderState>, err: int)
    requires d.Inv() && d.g == Stale() && |s0| == 5 && s0[4] == NotOrdered && Within(d.g, s0, d.states[..], 3)
    requires err >= 0 ==> d.stale == {} && Settled(d.g, Around(d.stale), d.states[..], 3, false)
    requires err < 0 ==> 3 in d.stale && (err == -ELOOP || (err == -EINVAL && HasVoid(d.g)))
    ensures err == -ELOOP && |d.states[..]| == 5 && d.states[..][4] == NotOrdered && 4 !in d.past + d.emitQueue
    ensures d.stale == {3}
  {
    StaleNeeds();
    hide Stale, Orderable, QueuedOnce, InOrder, AllSettled, Settled, Needs, NeedsFirst, HasVoid, Hereditary, Queues,
        NamedComposite, BehindStale;
    NeverQueued(d.stale, d.referenced, d.states[..], d.past + d.emitQueue);
    QueuedIffOrdered(d, 1);
    QueuedIffOrdered(d, 4);
    if err >= 0 {
      SettledHas(d.g, IN_PLACE, d.states[..], 3, false, 1, 2);
    }
    assert 3 in {0, 1, 2, 3} && 4 !in {0, 1, 2, 3};
  }

  lemma QueuedIffOrdered(d: BtfDump, x: Id)
    requires d.Inv() && NamedComposite(d.g, x)
    ensures x in d.past + d.emitQueue <==> IsOrdered(d.states[..], x)
  {
    hide Orderable, InOrder, AllSettled;
    NamedQueues(d.g, d.referenced, x);
  }

  lemma SecondGoesOn(d: BtfDump, s1: seq<OrderState>, err: int)
    requires d.Inv() && d.g == Stale() && |s1| == 5 && s1[4] == NotOrdered && IsOrdered(s1, 3) && 4 !in d.past
    requires err >= 0 ==> Settled(d.g, Around(d.stale), d.states[..], 4, false)
    requires err < 0 ==> Stuck(d.g, s1, 4)
    ensures err >= 0 && 4 in d.emitQueue && 1 !in d.emitQueue
  {
    StaleNeeds();
    hide Stale, Orderable, QueuedOnce, InOrder, AllSettled, Settled, Needs, NeedsFirst, HasVoid, Hereditary, Queues,
        BehindStale;
    NeverQueued(d.stale, d.referenced, d.states[..], d.past + d.emitQueue);
    QueuedIffOrdered(d, 4);
    if err >= 0 {
      SettledHas(d.g, Around(d.stale), d.states[..], 4, false, 4, 0);
    }
  }

  // ---------------------------------------------------------------- referenced types

  /** The types that `btf_dump_mark_referenced` counts as used by a type: the result of a
      prototype is not among them. */
  function Marks(d: Desc): seq<Id> {
    if d.info.kind == FUNC_PROTO then seq(|ParamsOf(d)|, k requires 0 <= k < |ParamsOf(d)| => ParamsOf(d)[k].ty)
        else Refs(d)
  }

  /** A descriptor names another one in a field of its own: what it is built from, its elements
      and indices, members, parameters and variables, but not the result of a prototype. */
  predicate Names(d: Desc, x: Id) {
    || (d.info.kind in {CONST, VOLATILE, RESTRICT, PTR, TYPEDEF, FUNC, VAR} && d.word == x)
    || match d.data
       case ArrayData(elem, index, _) => x == elem || x == index
       case Members(ms) => exists k {:trigger ms[k]} :: 0 <= k < |ms| && ms[k].ty == x
       case Params(ps) => exists k {:trigger ps[k]} :: 0 <= k < |ps| && ps[k].ty == x
       case SecInfos(ss) => exists k {:trigger ss[k]} :: 0 <= k < |ss| && ss[k].ty == x
       case _ => false
  }

  lemma MarksAreNames(d: Desc, x: Id)
    requires WellFormed(d)
    ensures x in Marks(d) <==> Names(d, x)
  {
    if d.data.ArrayData? {
      assert Marks(d) == [d.data.index, d.data.elem];
    } else if d.data.Members? {
      var ms := d.data.members;
      assert |Marks(d)| == |ms| && forall k {:trigger ms[k]} :: 0 <= k < |ms| ==> Marks(d)[k] == ms[k].ty;
    } else if d.data.Params? {
      var ps := d.data.params;
      assert |Marks(d)| == |ps| && forall k {:trigger ps[k]} :: 0 <= k < |ps| ==> Marks(d)[k] == ps[k].ty;
    } else if d.data.SecInfos? {
      var ss := d.data.secinfos;
      assert |Marks(d)| == |ss| && forall k {:trigger ss[k]} :: 0 <= k < |ss| ==> Marks(d)[k] == ss[k].ty;
    } else {
      assert d.info.kind in {CONST, VOLATILE, RESTRICT, PTR, TYPEDEF, FUNC, VAR} ==> Marks(d) == [d.word];
    }
  }

  lemma AllMarksAreNames(g: Graph)
    requires WfGraph(g)
    ensures forall i, x: Id {:trigger Names(g[i], x)} :: 0 <= i < |g| ==> (x in Marks(g[i]) <==> Names(g[i], x))
  {
    hide Marks, Names, WellFormed, Refs;
    forall i, x: Id {:trigger Names(g[i], x)} | 0 <= i < |g| ensures x in Marks(g[i]) <==> Names(g[i], x) {
      MarksAreNames(g[i], x);
    }
  }

  /** `btf_dump_mark_referenced` */
  method MarkReferenced(g: Graph) returns (err: int, referenced: seq<bool>)
    requires WfGraph(g)
    ensures err == 0 || err == -EINVAL
    ensures err == 0 <==> forall i :: 1 <= i < |g| ==> g[i].info.kind != VOID
    ensures err == 0 ==> |referenced| == |g| && forall x: Id :: x < |g| ==>
        (referenced[x] <==> exists i :: 1 <= i < |g| && Names(g[i], x))
  {
    hide WfGraph, Marks, Names;
    AllMarksAreNames(g);
    err, referenced := 0, seq(|g|, _ => false);
    NotEmpty(g);
    for i := 1 to |g|
      invariant |referenced| == |g| && forall k :: 1 <= k < i ==> g[k].info.kind != VOID
      invariant forall x: Id :: x < |g| ==> (referenced[x] <==> exists k :: 1 <= k < i && Names(g[k], x))
    {
      if g[i].info.kind == VOID {
        return -EINVAL, referenced;
      }
      MarksInRange(g, i);
      referenced := MarkAll(referenced, Marks(g[i]));
    }
  }

  method MarkAll(referenced: seq<bool>, refs: seq<Id>) returns (r: seq<bool>)
    requires forall j :: 0 <= j < |refs| ==> refs[j] < |referenced|
    ensures |r| == |referenced| && forall x: Id :: x < |r| ==> (r[x] <==> referenced[x] || x in refs)
  {
    r := referenced;
    for j := 0 to |refs|
      invariant |r| == |referenced| && forall x: Id :: x < |r| ==> (r[x] <==> referenced[x] || x in refs[..j])
    {
      r := r[refs[j] := true];
    }
    assert refs[..|refs|] == refs;
  }

  lemma NotEmpty(g: Graph)
    requires WfGraph(g)
    ensures |g| > 0
  {
  }

  lemma MarksInRange(g: Graph, i: Id)
    requires WfGraph(g) && i < |g|
    ensures forall j :: 0 <= j < |Marks(g[i])| ==> Marks(g[i])[j] < |g|
  {
    var d := g[i];
    assert WellFormed(d);
    forall j | 0 <= j < |Marks(d)| ensures Marks(d)[j] < |g| {
      if d.info.kind == FUNC_PROTO {
        assert Refs(d)[j + 1] == Marks(d)[j];
      }
    }
  }
}
