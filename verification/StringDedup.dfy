/** `btf_dedup_strings` (btf.c): unused strings are dropped, equal ones merged, and every
    string offset in the types and the line information is rewritten. */
module StringDedup {
  import opened Basics
  import opened Multisets
  import opened BtfTypes
  import opened Strings

  const EINVAL: int := 22

  /** One section of .BTF.ext line information, as far as it refers to strings. */
  datatype LineRec = LineRec(fileName: nat, line: nat)
  datatype LineSec = LineSec(secName: nat, recs: seq<LineRec>)

  // ---------------------------------------------------------------- the visited offsets

  function DataNames(data: Data): seq<nat> {
    match data
    case Members(ms) => seq(|ms|, i requires 0 <= i < |ms| => ms[i].name)
    case Enumerators(es) => seq(|es|, i requires 0 <= i < |es| => es[i].name)
    case Params(ps) => seq(|ps|, i requires 0 <= i < |ps| => ps[i].name)
    case _ => []
  }

  function WithDataNames(data: Data, ns: seq<nat>): Data
    requires |ns| == |DataNames(data)|
  {
    match data
    case Members(ms) => Members(seq(|ms|, i requires 0 <= i < |ms| => ms[i].(name := ns[i])))
    case Enumerators(es) => Enumerators(seq(|es|, i requires 0 <= i < |es| => es[i].(name := ns[i])))
    case Params(ps) => Params(seq(|ps|, i requires 0 <= i < |ps| => ps[i].(name := ns[i])))
    case _ => data
  }

  /** The string offsets of a descriptor in the order `btf_for_each_str_off` visits them. */
  function Names(d: Desc): seq<nat> { [d.name] + DataNames(d.data) }

  function WithNames(d: Desc, ns: seq<nat>): Desc
    requires |ns| == |Names(d)|
  {
    d.(name := ns[0], data := WithDataNames(d.data, ns[1..]))
  }

  function RecNames(recs: seq<LineRec>): seq<nat> {
    if recs == [] then [] else [recs[0].fileName, recs[0].line] + RecNames(recs[1..])
  }

  function WithRecNames(recs: seq<LineRec>, ns: seq<nat>): seq<LineRec>
    requires |ns| == |RecNames(recs)|
  {
    if recs == [] then [] else [LineRec(ns[0], ns[1])] + WithRecNames(recs[1..], ns[2..])
  }

  function LineNames(sec: LineSec): seq<nat> { [sec.secName] + RecNames(sec.recs) }

  function WithLineNames(sec: LineSec, ns: seq<nat>): LineSec
    requires |ns| == |LineNames(sec)|
  {
    LineSec(ns[0], WithRecNames(sec.recs, ns[1..]))
  }

  lemma WithNamesLaws(d: Desc, ns: seq<nat>)
    requires |ns| == |Names(d)|
    ensures Names(WithNames(d, ns)) == ns && WithNames(d, ns).info == d.info
  {
  }

  lemma {:induction false} WithRecNamesLaws(recs: seq<LineRec>, ns: seq<nat>)
    requires |ns| == |RecNames(recs)|
    ensures RecNames(WithRecNames(recs, ns)) == ns && |WithRecNames(recs, ns)| == |recs|
  {
    if recs != [] {
      WithRecNamesLaws(recs[1..], ns[2..]);
      assert WithRecNames(recs, ns)[1..] == WithRecNames(recs[1..], ns[2..]);
    }
  }

  // ---------------------------------------------------------------- marking

  /** Every offset is 0 or the start of a string. */
  ghost predicate AllStarts(ptrs: seq<StrPtr>, cells: seq<nat>) {
    forall c :: c in cells && c != 0 ==> IsStart(ptrs, c)
  }

  ghost predicate IsStart(ptrs: seq<StrPtr>, c: nat) {
    exists k :: 0 <= k < |ptrs| && ptrs[k].off == c
  }

  /** Exactly the pointers to visited strings got marked. */
  ghost predicate MarkedBy(p0: seq<StrPtr>, p: seq<StrPtr>, cells: seq<nat>) {
    && |p| == |p0|
    && forall k {:trigger p[k]} :: 0 <= k < |p| ==>
        p[k].off == p0[k].off && (p[k].used <==> p0[k].used || (p0[k].off != 0 && p0[k].off in cells))
  }

  lemma MarkedJoin(p0: seq<StrPtr>, p1: seq<StrPtr>, p2: seq<StrPtr>, a: seq<nat>, b: seq<nat>)
    requires MarkedBy(p0, p1, a) && MarkedBy(p1, p2, b)
    ensures MarkedBy(p0, p2, a + b)
    ensures forall c :: IsStart(p1, c) <==> IsStart(p0, c)
    ensures SortedByOffset(p0) ==> SortedByOffset(p2)
  {
    forall c ensures IsStart(p1, c) <==> IsStart(p0, c) {
      if IsStart(p1, c) {
        var k :| 0 <= k < |p1| && p1[k].off == c;
        assert p0[k].off == c;
      }
      if IsStart(p0, c) {
        var k :| 0 <= k < |p0| && p0[k].off == c;
        assert p1[k].off == c;
      }
    }
  }

  /** `btf_str_mark_as_used` on a run of offsets. */
  method MarkNames(p0: seq<StrPtr>, cells: seq<nat>) returns (err: int, p: seq<StrPtr>)
    requires SortedByOffset(p0)
    ensures err == 0 || err == -EINVAL
    ensures err == 0 <==> AllStarts(p0, cells)
    ensures err == 0 ==> MarkedBy(p0, p, cells)
  {
    p := p0;
    for i := 0 to |cells|
      invariant MarkedBy(p0, p, cells[..i]) && SortedByOffset(p)
      invariant AllStarts(p0, cells[..i])
    {
      assert cells[..i + 1] == cells[..i] + [cells[i]];
      if cells[i] != 0 {
        var s := FindByOffset(p, cells[i]);
        if s.None? {
          assert forall k :: 0 <= k < |p0| ==> p0[k].off == p[k].off;
          assert !IsStart(p0, cells[i]);
          return -EINVAL, p;
        }
        assert p0[s.value].off == cells[i];
        p := p[s.value := p[s.value].(used := true)];
      }
    }
    assert cells[..|cells|] == cells;
    return 0, p;
  }

  // ---------------------------------------------------------------- remapping

  /** `btf_str_remap_offset` on one offset. */
  ghost predicate RemapsTo(p: seq<StrPtr>, c: nat, c': nat) {
    if c == 0 then c' == 0 else exists k :: 0 <= k < |p| && p[k].off == c && c' == p[k].newOff
  }

  method RemapNames(p: seq<StrPtr>, cells: seq<nat>) returns (err: int, cells': seq<nat>)
    requires SortedByOffset(p)
    ensures err == 0 || err == -EINVAL
    ensures err == 0 <==> AllStarts(p, cells)
    ensures err == 0 ==> |cells'| == |cells| && forall i :: 0 <= i < |cells| ==> RemapsTo(p, cells[i], cells'[i])
  {
    cells' := [];
    for i := 0 to |cells|
      invariant |cells'| == i && forall k :: 0 <= k < i ==> RemapsTo(p, cells[k], cells'[k])
      invariant AllStarts(p, cells[..i])
    {
      assert cells[..i + 1] == cells[..i] + [cells[i]];
      if cells[i] == 0 {
        cells' := cells' + [0];
      } else {
        var s := FindByOffset(p, cells[i]);
        if s.None? {
          assert !IsStart(p, cells[i]);
          return -EINVAL, cells';
        }
        cells' := cells' + [p[s.value].newOff];
      }
    }
    assert cells[..|cells|] == cells;
    return 0, cells';
  }

  // ---------------------------------------------------------------- all offsets

  /** The offsets in the types below `n`, void excepted. */
  function TypeCells(ts: seq<Desc>, n: nat): seq<nat>
    requires n <= |ts|
  {
    if n <= 1 then [] else TypeCells(ts, n - 1) + Names(ts[n - 1])
  }

  function LineCells(ls: seq<LineSec>, n: nat): seq<nat>
    requires n <= |ls|
  {
    if n == 0 then [] else LineCells(ls, n - 1) + LineNames(ls[n - 1])
  }

  /** Everything `btf_for_each_str_off` visits; function information is not among it. */
  function Cells(ts: seq<Desc>, ls: seq<LineSec>): seq<nat> {
    TypeCells(ts, |ts|) + LineCells(ls, |ls|)
  }

  lemma {:induction false} TypeCellsHave(ts: seq<Desc>, n: nat, i: nat, k: nat)
    requires 0 < i < n <= |ts| && k < |Names(ts[i])|
    ensures Names(ts[i])[k] in TypeCells(ts, n)
  {
    hide Names;
    if i < n - 1 {
      TypeCellsHave(ts, n - 1, i, k);
    }
  }

  lemma {:induction false} LineCellsHave(ls: seq<LineSec>, n: nat, i: nat, k: nat)
    requires i < n <= |ls| && k < |LineNames(ls[i])|
    ensures LineNames(ls[i])[k] in LineCells(ls, n)
  {
    hide LineNames;
    if i < n - 1 {
      LineCellsHave(ls, n - 1, i, k);
    }
  }

  lemma AllStartsJoin(p: seq<StrPtr>, a: seq<nat>, b: seq<nat>)
    ensures AllStarts(p, a + b) <==> AllStarts(p, a) && AllStarts(p, b)
  {
    hide IsStart;
    assert forall c :: c in a + b <==> c in a || c in b;
  }

  lemma SameStarts(p0: seq<StrPtr>, p: seq<StrPtr>, a: seq<nat>, b: seq<nat>)
    requires MarkedBy(p0, p, a)
    ensures AllStarts(p0, b) <==> AllStarts(p, b)
    ensures SortedByOffset(p0) ==> SortedByOffset(p)
  {
    forall c ensures IsStart(p0, c) <==> IsStart(p, c) {
      assert forall k :: 0 <= k < |p| ==> p[k].off == p0[k].off;
    }
  }

  // ---------------------------------------------------------------- what the pass promises

  /** The rewritten offset `c'` is where the string at `c` was emitted. */
  ghost predicate Moved(sec: seq<Octet>, es: seq<seq<Octet>>, c: nat, c': nat) {
    Relocated(sec, es, StrPtr(c, true, c'))
  }

  ghost predicate MovedAll(sec: seq<Octet>, es: seq<seq<Octet>>, cs: seq<nat>, cs': seq<nat>) {
    |cs'| == |cs| && forall k {:trigger cs[k]} {:trigger cs'[k]} :: 0 <= k < |cs| ==> Moved(sec, es, cs[k], cs'[k])
  }

  /** The descriptor with its string offsets rewritten, and nothing else. */
  ghost predicate MovedDesc(sec: seq<Octet>, es: seq<seq<Octet>>, d: Desc, d': Desc) {
    |Names(d')| == |Names(d)| && d' == WithNames(d, Names(d')) && MovedAll(sec, es, Names(d), Names(d'))
  }

  ghost predicate MovedLine(sec: seq<Octet>, es: seq<seq<Octet>>, l: LineSec, l': LineSec) {
    |LineNames(l')| == |LineNames(l)| && l' == WithLineNames(l, LineNames(l'))
        && MovedAll(sec, es, LineNames(l), LineNames(l'))
  }

  /** The new section is the emitted strings, pairwise distinct, the empty one first, each of
      them referenced (or empty); every rewritten offset is where its string went. */
  ghost predicate Deduplicated(sec: seq<Octet>, ts: seq<Desc>, ls: seq<LineSec>,
                               sec': seq<Octet>, ts': seq<Desc>, ls': seq<LineSec>, es: seq<seq<Octet>>)
  {
    && sec' == Join(es) && Ascending(es) && es != [] && es[0] == []
    && (forall j {:trigger es[j]} :: 0 <= j < |es| ==> Referenced(sec, ts, ls, es[j]))
    && |ts'| == |ts| && (forall i {:trigger ts'[i]} :: 0 < i < |ts| ==> MovedDesc(sec, es, ts[i], ts'[i]))
    && |ls'| == |ls| && (forall i {:trigger ls'[i]} :: 0 <= i < |ls| ==> MovedLine(sec, es, ls[i], ls'[i]))
  }

  ghost predicate Referenced(sec: seq<Octet>, ts: seq<Desc>, ls: seq<LineSec>, s: seq<Octet>) {
    WfSection(sec) && (s == [] || exists c :: c in Cells(ts, ls) && c < |sec| && Str(sec, c) == s)
  }

  /** A rewritten offset reads the same string in the new section, and two rewritten offsets
      are equal exactly when their strings are. */
  lemma MovedMeaning(sec: seq<Octet>, es: seq<seq<Octet>>, a: nat, a': nat, b: nat, b': nat)
    requires Ascending(es) && Moved(sec, es, a, a') && Moved(sec, es, b, b')
    ensures a' < |Join(es)| && Join(es)[|Join(es)| - 1] == 0 && Str(Join(es), a') == Str(sec, a)
    ensures a' == b' <==> Str(sec, a) == Str(sec, b)
  {
    RelocatedOnce(sec, es, StrPtr(a, true, a'), StrPtr(b, true, b'));
  }

  // ---------------------------------------------------------------- field by field

  /** Two descriptors that differ in string offsets only, and whose offsets read the same: of the
      type itself, of members, of enumerators and of parameters. */
  predicate Spells(sec: seq<Octet>, d: Desc, sec': seq<Octet>, e: Desc) {
    && NameAt(sec', e.name) == NameAt(sec, d.name) && e.info == d.info && e.word == d.word
    && match d.data
       case Members(ms) =>
         && e.data.Members? && |e.data.members| == |ms|
         && forall k {:trigger ms[k]} :: 0 <= k < |ms| ==>
              e.data.members[k].ty == ms[k].ty && e.data.members[k].offset == ms[k].offset
              && NameAt(sec', e.data.members[k].name) == NameAt(sec, ms[k].name)
       case Enumerators(es) =>
         && e.data.Enumerators? && |e.data.enumerators| == |es|
         && forall k {:trigger es[k]} :: 0 <= k < |es| ==>
              e.data.enumerators[k].val == es[k].val
              && NameAt(sec', e.data.enumerators[k].name) == NameAt(sec, es[k].name)
       case Params(ps) =>
         && e.data.Params? && |e.data.params| == |ps|
         && forall k {:trigger ps[k]} :: 0 <= k < |ps| ==>
              e.data.params[k].ty == ps[k].ty && NameAt(sec', e.data.params[k].name) == NameAt(sec, ps[k].name)
       case _ => e.data == d.data
  }

  predicate SpellsLine(sec: seq<Octet>, l: LineSec, sec': seq<Octet>, l': LineSec) {
    && NameAt(sec', l'.secName) == NameAt(sec, l.secName) && |l'.recs| == |l.recs|
    && forall k {:trigger l.recs[k]} :: 0 <= k < |l.recs| ==>
         NameAt(sec', l'.recs[k].fileName) == NameAt(sec, l.recs[k].fileName)
         && NameAt(sec', l'.recs[k].line) == NameAt(sec, l.recs[k].line)
  }

  /** All types but void, and all line information, read as before. */
  ghost predicate AllSpelled(sec: seq<Octet>, ts: seq<Desc>, ls: seq<LineSec>,
                             sec': seq<Octet>, ts': seq<Desc>, ls': seq<LineSec>)
  {
    && |ts'| == |ts| && (forall i {:trigger ts'[i]} :: 0 < i < |ts| ==> Spells(sec, ts[i], sec', ts'[i]))
    && |ls'| == |ls| && forall i {:trigger ls'[i]} :: 0 <= i < |ls| ==> SpellsLine(sec, ls[i], sec', ls'[i])
  }

  lemma MovedInSection(sec: seq<Octet>, es: seq<seq<Octet>>, c: nat, c': nat)
    requires Ascending(es) && Moved(sec, es, c, c')
    ensures NameAt(Join(es), c') == NameAt(sec, c)
  {
    MovedMeaning(sec, es, c, c', c, c');
  }

  lemma AllMovedInSection(sec: seq<Octet>, es: seq<seq<Octet>>, cs: seq<nat>, cs': seq<nat>)
    requires Ascending(es) && MovedAll(sec, es, cs, cs')
    ensures |cs'| == |cs| && forall k {:trigger cs'[k]} :: 0 <= k < |cs| ==>
        NameAt(Join(es), cs'[k]) == NameAt(sec, cs[k])
  {
    hide Moved, Join, Ascending, NameAt;
    forall k {:trigger cs'[k]} | 0 <= k < |cs| ensures NameAt(Join(es), cs'[k]) == NameAt(sec, cs[k]) {
      MovedInSection(sec, es, cs[k], cs'[k]);
    }
  }

  /** Where the offsets of a descriptor go when they are replaced. */
  lemma WithNamesAt(d: Desc, ns: seq<nat>)
    requires |ns| == |Names(d)|
    ensures var e := WithNames(d, ns);
      && |Names(d)| > 0 && Names(d)[0] == d.name && e.name == ns[0] && e.info == d.info && e.word == d.word
      && match d.data
         case Members(ms) =>
           && e.data.Members? && |e.data.members| == |ms| == |ns| - 1
           && forall k {:trigger ms[k]} :: 0 <= k < |ms| ==>
                Names(d)[k + 1] == ms[k].name && e.data.members[k] == ms[k].(name := ns[k + 1])
         case Enumerators(es) =>
           && e.data.Enumerators? && |e.data.enumerators| == |es| == |ns| - 1
           && forall k {:trigger es[k]} :: 0 <= k < |es| ==>
                Names(d)[k + 1] == es[k].name && e.data.enumerators[k] == es[k].(name := ns[k + 1])
         case Params(ps) =>
           && e.data.Params? && |e.data.params| == |ps| == |ns| - 1
           && forall k {:trigger ps[k]} :: 0 <= k < |ps| ==>
                Names(d)[k + 1] == ps[k].name && e.data.params[k] == ps[k].(name := ns[k + 1])
         case _ => e.data == d.data
  {
  }

  lemma MovedSpells(sec: seq<Octet>, es: seq<seq<Octet>>, d: Desc, d': Desc)
    requires Ascending(es) && MovedDesc(sec, es, d, d')
    ensures Spells(sec, d, Join(es), d')
  {
    hide Moved, Join, Ascending, NameAt, MovedAll, Names, WithNames;
    AllMovedInSection(sec, es, Names(d), Names(d'));
    WithNamesAt(d, Names(d'));
    assert NameAt(Join(es), Names(d')[0]) == NameAt(sec, Names(d)[0]);
  }

  lemma {:induction false} RecNamesAt(recs: seq<LineRec>)
    ensures |RecNames(recs)| == 2 * |recs|
    ensures forall k {:trigger recs[k]} :: 0 <= k < |recs| ==>
        RecNames(recs)[2 * k] == recs[k].fileName && RecNames(recs)[2 * k + 1] == recs[k].line
  {
    if recs != [] {
      RecNamesAt(recs[1..]);
      forall k {:trigger recs[k]} | 0 < k < |recs|
        ensures RecNames(recs)[2 * k] == recs[k].fileName && RecNames(recs)[2 * k + 1] == recs[k].line
      {
        assert recs[1..][k - 1] == recs[k];
        assert RecNames(recs)[2 * k] == RecNames(recs[1..])[2 * (k - 1)];
        assert RecNames(recs)[2 * k + 1] == RecNames(recs[1..])[2 * (k - 1) + 1];
      }
    }
  }

  lemma MovedSpellsLine(sec: seq<Octet>, es: seq<seq<Octet>>, l: LineSec, l': LineSec)
    requires Ascending(es) && MovedLine(sec, es, l, l')
    ensures SpellsLine(sec, l, Join(es), l')
  {
    AllMovedInSection(sec, es, LineNames(l), LineNames(l'));
    RecNamesAt(l.recs);
    RecNamesAt(l'.recs);
    hide Moved, Join, Ascending, NameAt, MovedAll, RecNames, WithRecNames;
    var ns, ns' := LineNames(l), LineNames(l');
    assert ns[0] == l.secName && ns'[0] == l'.secName;
    forall k {:trigger l.recs[k]} | 0 <= k < |l.recs|
      ensures NameAt(Join(es), l'.recs[k].fileName) == NameAt(sec, l.recs[k].fileName)
      ensures NameAt(Join(es), l'.recs[k].line) == NameAt(sec, l.recs[k].line)
    {
      var r := l'.recs[k];
      assert ns[2 * k + 1] == l.recs[k].fileName && ns'[2 * k + 1] == l'.recs[k].fileName;
      assert ns[2 * k + 2] == l.recs[k].line && ns'[2 * k + 2] == l'.recs[k].line;
    }
  }

  lemma DedupSpells(sec: seq<Octet>, ts: seq<Desc>, ls: seq<LineSec>, sec': seq<Octet>, ts': seq<Desc>,
      ls': seq<LineSec>, es: seq<seq<Octet>>)
    requires Deduplicated(sec, ts, ls, sec', ts', ls', es)
    ensures AllSpelled(sec, ts, ls, sec', ts', ls')
  {
    hide MovedDesc, MovedLine, Join, Ascending, Referenced, Spells, SpellsLine;
    forall i {:trigger ts'[i]} | 0 < i < |ts| ensures Spells(sec, ts[i], sec', ts'[i]) {
      MovedSpells(sec, es, ts[i], ts'[i]);
    }
    forall i {:trigger ls'[i]} | 0 <= i < |ls| ensures SpellsLine(sec, ls[i], sec', ls'[i]) {
      MovedSpellsLine(sec, es, ls[i], ls'[i]);
    }
  }

  /** The string offsets of a descriptor, field by field. */
  ghost predicate NamedIn(d: Desc, c: nat) {
    || c == d.name
    || (d.data.Members? && exists m :: m in d.data.members && m.name == c)
    || (d.data.Enumerators? && exists e :: e in d.data.enumerators && e.name == c)
    || (d.data.Params? && exists p :: p in d.data.params && p.name == c)
  }

  ghost predicate NamedInLine(l: LineSec, c: nat) {
    c == l.secName || exists r :: r in l.recs && (r.fileName == c || r.line == c)
  }

  lemma NamesAreFields(d: Desc, c: nat)
    ensures c in Names(d) <==> NamedIn(d, c)
  {
    var ns := Names(d);
    assert ns[0] == d.name;
    match d.data
    case Members(ms) =>
      assert forall k {:trigger ms[k]} :: 0 <= k < |ms| ==> ns[k + 1] == ms[k].name;
      assert forall k {:trigger ns[k]} :: 1 <= k < |ns| ==> ns[k] == ms[k - 1].name;
    case Enumerators(es) =>
      assert forall k {:trigger es[k]} :: 0 <= k < |es| ==> ns[k + 1] == es[k].name;
      assert forall k {:trigger ns[k]} :: 1 <= k < |ns| ==> ns[k] == es[k - 1].name;
    case Params(ps) =>
      assert forall k {:trigger ps[k]} :: 0 <= k < |ps| ==> ns[k + 1] == ps[k].name;
      assert forall k {:trigger ns[k]} :: 1 <= k < |ns| ==> ns[k] == ps[k - 1].name;
    case _ =>
  }

  lemma {:induction false} RecNamesAreFields(recs: seq<LineRec>, c: nat)
    ensures c in RecNames(recs) <==> exists r :: r in recs && (r.fileName == c || r.line == c)
  {
    if recs != [] {
      RecNamesAreFields(recs[1..], c);
      assert recs == [recs[0]] + recs[1..];
      assert RecNames(recs) == [recs[0].fileName, recs[0].line] + RecNames(recs[1..]);
    }
  }

  lemma {:induction false} TypeCellsAreFields(ts: seq<Desc>, n: nat, c: nat)
    requires n <= |ts|
    ensures c in TypeCells(ts, n) <==> exists i {:trigger ts[i]} :: 0 < i < n && NamedIn(ts[i], c)
  {
    hide Names, NamedIn;
    if n > 1 {
      TypeCellsAreFields(ts, n - 1, c);
      NamesAreFields(ts[n - 1], c);
    }
  }

  lemma {:induction false} LineCellsAreFields(ls: seq<LineSec>, n: nat, c: nat)
    requires n <= |ls|
    ensures c in LineCells(ls, n) <==> exists i {:trigger ls[i]} :: 0 <= i < n && NamedInLine(ls[i], c)
  {
    if n > 0 {
      LineCellsAreFields(ls, n - 1, c);
      RecNamesAreFields(ls[n - 1].recs, c);
    }
    hide RecNames;
  }

  /** The visited offsets are those of all names in the types and the line information. */
  lemma CellsAreFields(ts: seq<Desc>, ls: seq<LineSec>, c: nat)
    ensures c in Cells(ts, ls) <==>
      (exists i {:trigger ts[i]} :: 0 < i < |ts| && NamedIn(ts[i], c))
      || exists i {:trigger ls[i]} :: 0 <= i < |ls| && NamedInLine(ls[i], c)
  {
    hide NamedIn, NamedInLine;
    TypeCellsAreFields(ts, |ts|, c);
    LineCellsAreFields(ls, |ls|, c);
  }

  /** What remapping relies on: every visited offset is found, and found with a new offset. */
  ghost predicate Ready(sec: seq<Octet>, es: seq<seq<Octet>>, q: seq<StrPtr>, cells: seq<nat>) {
    AllStarts(q, cells) && forall c, c' :: c in cells && RemapsTo(q, c, c') ==> Moved(sec, es, c, c')
  }

  lemma ReadyPart(sec: seq<Octet>, es: seq<seq<Octet>>, q: seq<StrPtr>, part: seq<nat>, cells: seq<nat>)
    requires Ready(sec, es, q, cells) && forall k {:trigger part[k]} :: 0 <= k < |part| ==> part[k] in cells
    ensures Ready(sec, es, q, part)
  {
    hide Moved, RemapsTo, IsStart;
  }

  class StringSection {
    /** `btf->strings`, `hdr->str_len` bytes of it */
    var strings: seq<Octet>
    /** `btf->types`; entry 0 is void */
    const types: array<Desc>
    /** `btf_ext->line_info`, empty without a .BTF.ext section */
    const lines: array<LineSec>

    constructor (strings: seq<Octet>, types: array<Desc>, lines: array<LineSec>)
      ensures this.strings == strings && this.types == types && this.lines == lines
    {
      this.strings, this.types, this.lines := strings, types, lines;
    }

    /** `btf_for_each_str_off` with `btf_str_mark_as_used` */
    method MarkAll(p0: seq<StrPtr>) returns (err: int, p: seq<StrPtr>)
      requires SortedByOffset(p0) && types.Length > 0
      ensures err == 0 || err == -EINVAL
      ensures err == 0 <==> AllStarts(p0, Cells(types[..], lines[..]))
      ensures err == 0 ==> MarkedBy(p0, p, Cells(types[..], lines[..]))
    {
      err, p := MarkTypes(p0);
      if err != 0 {
        AllStartsJoin(p0, TypeCells(types[..], types.Length), LineCells(lines[..], lines.Length));
        return;
      }
      var q;
      SameStarts(p0, p, TypeCells(types[..], types.Length), LineCells(lines[..], lines.Length));
      AllStartsJoin(p0, TypeCells(types[..], types.Length), LineCells(lines[..], lines.Length));
      err, q := MarkLines(p);
      if err == 0 {
        MarkedJoin(p0, p, q, TypeCells(types[..], types.Length), LineCells(lines[..], lines.Length));
      }
      p := q;
    }

    method MarkTypes(p0: seq<StrPtr>) returns (err: int, p: seq<StrPtr>)
      requires SortedByOffset(p0) && types.Length > 0
      ensures err == 0 || err == -EINVAL
      ensures err == 0 <==> AllStarts(p0, TypeCells(types[..], types.Length))
      ensures err == 0 ==> MarkedBy(p0, p, TypeCells(types[..], types.Length))
    {
      hide AllStarts, Names, MarkedBy, SortedByOffset;
      p := p0;
      NothingMarked(p0);
      assert TypeCells(types[..], 1) == [];
      for i := 1 to types.Length
        invariant MarkedBy(p0, p, TypeCells(types[..], i)) && AllStarts(p0, TypeCells(types[..], i))
      {
        ghost var p1, ns := p, Names(types[i]);
        SameStarts(p0, p1, TypeCells(types[..], i), ns);
        AllStartsJoin(p0, TypeCells(types[..], i), ns);
        err, p := MarkNames(p, Names(types[i]));
        if err != 0 {
          forall k | 0 <= k < |ns| ensures ns[k] in TypeCells(types[..], types.Length) {
            TypeCellsHave(types[..], types.Length, i, k);
          }
          NotAll(p0, ns, TypeCells(types[..], types.Length));
          return;
        }
        MarkedJoin(p0, p1, p, TypeCells(types[..], i), ns);
      }
      return 0, p;
    }

    method MarkLines(p0: seq<StrPtr>) returns (err: int, p: seq<StrPtr>)
      requires SortedByOffset(p0)
      ensures err == 0 || err == -EINVAL
      ensures err == 0 <==> AllStarts(p0, LineCells(lines[..], lines.Length))
      ensures err == 0 ==> MarkedBy(p0, p, LineCells(lines[..], lines.Length))
    {
      hide AllStarts, LineNames, MarkedBy, SortedByOffset;
      p := p0;
      NothingMarked(p0);
      assert LineCells(lines[..], 0) == [];
      for i := 0 to lines.Length
        invariant MarkedBy(p0, p, LineCells(lines[..], i)) && AllStarts(p0, LineCells(lines[..], i))
      {
        ghost var p1, ns := p, LineNames(lines[i]);
        SameStarts(p0, p1, LineCells(lines[..], i), ns);
        AllStartsJoin(p0, LineCells(lines[..], i), ns);
        err, p := MarkNames(p, LineNames(lines[i]));
        if err != 0 {
          forall k | 0 <= k < |ns| ensures ns[k] in LineCells(lines[..], lines.Length) {
            LineCellsHave(lines[..], lines.Length, i, k);
          }
          NotAll(p0, ns, LineCells(lines[..], lines.Length));
          return;
        }
        MarkedJoin(p0, p1, p, LineCells(lines[..], i), ns);
      }
      return 0, p;
    }

    /** `btf_for_each_str_off` with `btf_str_remap_offset` */
    method RemapAll(q: seq<StrPtr>, ghost sec: seq<Octet>, ghost es: seq<seq<Octet>>) returns (err: int)
      requires SortedByOffset(q) && types.Length > 0
      requires Ready(sec, es, q, Cells(types[..], lines[..]))
      modifies types, lines
      ensures err == 0 && types[0] == old(types[0])
      ensures forall i {:trigger types[i]} :: 0 < i < types.Length ==> MovedDesc(sec, es, old(types[i]), types[i])
      ensures forall i {:trigger lines[i]} :: 0 <= i < lines.Length ==> MovedLine(sec, es, old(lines[i]), lines[i])
    {
      hide Names, LineNames, Ready, SortedByOffset, MovedDesc, MovedLine;
      ghost var ts, ls := types[..], lines[..];
      for i := 1 to types.Length
        invariant forall k {:trigger types[k]} :: 0 < k < i ==> MovedDesc(sec, es, ts[k], types[k])
        invariant types[0] == ts[0] && forall k :: i <= k < types.Length ==> types[k] == ts[k]
        modifies types
      {
        CellsOfType(ts, ls, i);
        ReadyPart(sec, es, q, Names(ts[i]), Cells(ts, ls));
        var d := RemapDesc(types[i], q, sec, es);
        types[i] := d;
      }
      for i := 0 to lines.Length
        invariant forall k {:trigger lines[k]} :: 0 <= k < i ==> MovedLine(sec, es, ls[k], lines[k])
        invariant forall k :: i <= k < lines.Length ==> lines[k] == ls[k]
        modifies lines
      {
        CellsOfLine(ts, ls, i);
        ReadyPart(sec, es, q, LineNames(ls[i]), Cells(ts, ls));
        var l := RemapLine(lines[i], q, sec, es);
        lines[i] := l;
      }
      return 0;
    }

    /** `btf_dedup_strings`: it fails, changing nothing, exactly when some offset is not the
        start of a string. */
    method DedupStrings() returns (err: int)
      requires WfSection(strings) && types.Length > 0
      modifies this, types, lines
      ensures err == 0 || err == -EINVAL
      ensures err == 0 <==> forall c :: c in old(Cells(types[..], lines[..])) ==> c == 0 || c in Starts(old(strings), 0)
      ensures err != 0 ==> strings == old(strings) && types[..] == old(types[..]) && lines[..] == old(lines[..])
      ensures err == 0 ==> WfSection(strings) && |strings| <= |old(strings)| && types[0] == old(types[0])
      ensures err == 0 ==> exists es ::
          Deduplicated(old(strings), old(types[..]), old(lines[..]), strings, types[..], lines[..], es)
      ensures err == 0 ==> AllSpelled(old(strings), old(types[..]), old(lines[..]), strings, types[..], lines[..])
    {
      hide AllSpelled, AllStarts, MarkedBy, IsIndex, SortedByContent, SortedByOffset, EmittedTo, Ready, Moved,
          MovedDesc, MovedLine,
          Starts, Cells, OnlyFirstUsed,
           UsesExactly, AllRelocated, Bytes, Join, Ascending, Str, Len;
      ghost var sec, ts, ls := strings, types[..], lines[..];
      var ptrs := BuildIndex(strings);
      IndexFacts(sec, ptrs, Cells(ts, ls));
      ptrs := ptrs[0 := ptrs[0].(used := true)];
      ghost var index := ptrs;
      err, ptrs := MarkAll(ptrs);
      if err != 0 {
        return;
      }
      MarkedFacts(sec, index, ptrs, Cells(ts, ls));
      ghost var marked := ptrs;
      ptrs := SortByContent(strings, ptrs);
      ghost var sorted := ptrs;
      var out;
      ptrs, out := EmitGroups(strings, ptrs);
      ghost var es :| EmittedTo(sec, sorted, ptrs, out, es, |sorted|);
      EmittedFacts(sec, marked, sorted, ptrs, out, es, Cells(ts, ls));
      strings := out;
      ghost var emitted := ptrs;
      ptrs := SortByOffset(ptrs);
      ReadyFacts(sec, emitted, ptrs, es, Cells(ts, ls));
      err := RemapAll(ptrs, sec, es);
      Concluded(sec, ts, ls, es, types[..], lines[..]);
      DedupSpells(sec, ts, ls, strings, types[..], lines[..], es);
    }
  }

  // ---------------------------------------------------------------- the steps of the pass

  lemma IndexFacts(sec: seq<Octet>, ptrs: seq<StrPtr>, cells: seq<nat>)
    requires IsIndex(sec, ptrs) && forall k :: 0 <= k < |ptrs| ==> !ptrs[k].used
    ensures ptrs != [] && ptrs[0].off == 0
    ensures var index := ptrs[0 := ptrs[0].(used := true)];
            && IsIndex(sec, index) && SortedByOffset(index) && OnlyFirstUsed(index)
            && (AllStarts(index, cells) <==> forall c :: c in cells ==> c == 0 || c in Starts(sec, 0))
  {
    StartsFacts(sec, 0);
    var index := ptrs[0 := ptrs[0].(used := true)];
    forall c ensures IsStart(index, c) <==> c in Starts(sec, 0) {
      if IsStart(index, c) {
        var k :| 0 <= k < |index| && index[k].off == c;
        assert Starts(sec, 0)[k] == c;
      }
      if c in Starts(sec, 0) {
        var k :| 0 <= k < |Starts(sec, 0)| && Starts(sec, 0)[k] == c;
        assert index[k].off == c;
      }
    }
  }

  ghost predicate OnlyFirstUsed(p: seq<StrPtr>) {
    p != [] && p[0].off == 0 && forall k {:trigger p[k]} :: 0 <= k < |p| ==> (p[k].used <==> k == 0)
  }

  /** A used pointer to the string at `c`. */
  ghost predicate UsedStart(p: seq<StrPtr>, c: nat) {
    exists k :: 0 <= k < |p| && p[k].off == c && p[k].used
  }

  /** Exactly the visited offsets, and 0, are used. */
  ghost predicate UsesExactly(p: seq<StrPtr>, cells: seq<nat>) {
    forall c :: UsedStart(p, c) <==> c == 0 || c in cells
  }

  lemma MarkedFacts(sec: seq<Octet>, index: seq<StrPtr>, marked: seq<StrPtr>, cells: seq<nat>)
    requires IsIndex(sec, index) && SortedByOffset(index) && OnlyFirstUsed(index)
    requires MarkedBy(index, marked, cells) && AllStarts(index, cells)
    ensures InSection(sec, marked) && Bytes(sec, marked) == |sec|
    ensures SortedByOffset(marked) && UsesExactly(marked, cells)
  {
    hide Len, Str, Bytes, Starts;
    IndexBytes(sec, marked, 0);
    forall c ensures UsedStart(marked, c) <==> c == 0 || c in cells {
      if UsedStart(marked, c) {
        var k :| 0 <= k < |marked| && marked[k].off == c && marked[k].used;
        assert index[k].off == c;
      }
      if c == 0 {
        assert marked[0].off == 0 && marked[0].used;
      } else if c in cells {
        assert IsStart(index, c);
        var k :| 0 <= k < |index| && index[k].off == c;
        assert marked[k].off == c && marked[k].used;
      }
    }
  }

  ghost predicate DistinctOffsets(p: seq<StrPtr>) {
    forall j, k {:trigger p[j], p[k]} :: 0 <= j < k < |p| ==> p[j].off != p[k].off
  }

  /** Reordering keeps offsets distinct and uses what was used. */
  lemma Reordered(a: seq<StrPtr>, b: seq<StrPtr>, cells: seq<nat>)
    requires multiset(a) == multiset(b) && DistinctOffsets(a) && UsesExactly(a, cells)
    ensures DistinctOffsets(b) && UsesExactly(b, cells)
  {
    assert NoDuplicates(a);
    NoDuplicatesPermuted(a, b);
    forall j, k {:trigger b[j], b[k]} | 0 <= j < k < |b| ensures b[j].off != b[k].off {
      var x := PermutedMember(b, a, j);
      var y := PermutedMember(b, a, k);
      assert a[x] != a[y];
      assert x < y || y < x;
    }
    forall c ensures UsedStart(b, c) <==> UsedStart(a, c) {
      if UsedStart(b, c) {
        var k :| 0 <= k < |b| && b[k].off == c && b[k].used;
        var x := PermutedMember(b, a, k);
      }
      if UsedStart(a, c) {
        var k :| 0 <= k < |a| && a[k].off == c && a[k].used;
        var x := PermutedMember(a, b, k);
      }
    }
  }

  /** Every used pointer learned where its string went. */
  ghost predicate AllRelocated(sec: seq<Octet>, es: seq<seq<Octet>>, p: seq<StrPtr>) {
    forall k {:trigger p[k]} :: 0 <= k < |p| && p[k].used ==> Relocated(sec, es, p[k])
  }

  lemma EmittedFacts(sec: seq<Octet>, marked: seq<StrPtr>, sorted: seq<StrPtr>, p: seq<StrPtr>, out: seq<Octet>,
      es: seq<seq<Octet>>, cells: seq<nat>)
    requires InSection(sec, marked) && Bytes(sec, marked) == |sec| && SortedByOffset(marked)
        && UsesExactly(marked, cells)
    requires multiset(sorted) == multiset(marked) && InSection(sec, sorted)
        && EmittedTo(sec, sorted, p, out, es, |sorted|)
    ensures out == Join(es) && Ascending(es) && |out| <= |sec|
    ensures DistinctOffsets(p) && UsesExactly(p, cells) && AllRelocated(sec, es, p)
    ensures forall j {:trigger es[j]} :: 0 <= j < |es| ==> VisitedString(sec, cells, es[j])
  {
    hide Len, Str, Bytes, Join, Ascending, Relocated;
    BytesPermuted(sec, sorted, marked);
    assert sorted[..|sorted|] == sorted;
    Reordered(marked, sorted, cells);
    forall c ensures UsedStart(p, c) <==> UsedStart(sorted, c) {
      assert forall k :: 0 <= k < |p| ==> p[k].off == sorted[k].off && p[k].used == sorted[k].used;
    }
    forall j, k {:trigger p[j], p[k]} | 0 <= j < k < |p| ensures p[j].off != p[k].off {
      assert sorted[j].off != sorted[k].off;
    }
    forall k {:trigger p[k]} | 0 <= k < |p| && p[k].used ensures Relocated(sec, es, p[k]) {
      assert sorted[k].used;
      assert UsedBelow(sec, sorted, |sorted|, StrOf(sec, sorted, k));
    }
    EmittedUsed(sec, sorted, p, out, es, cells);
  }

  /** Every emitted string is one that was marked. */
  lemma EmittedUsed(sec: seq<Octet>, sorted: seq<StrPtr>, p: seq<StrPtr>, out: seq<Octet>, es: seq<seq<Octet>>,
      cells: seq<nat>)
    requires InSection(sec, sorted) && EmittedTo(sec, sorted, p, out, es, |sorted|) && UsesExactly(sorted, cells)
    ensures forall j {:trigger es[j]} :: 0 <= j < |es| ==> VisitedString(sec, cells, es[j])
  {
    hide Len, Str, Bytes, Join, Ascending, Relocated;
    forall j {:trigger es[j]} | 0 <= j < |es| ensures VisitedString(sec, cells, es[j]) {
      assert UsedBelow(sec, sorted, |sorted|, es[j]);
      var k :| 0 <= k < |sorted| && sorted[k].used && StrOf(sec, sorted, k) == es[j];
      assert UsedStart(sorted, sorted[k].off);
    }
  }

  /** The empty string, or one that a visited offset starts. */
  ghost predicate VisitedString(sec: seq<Octet>, cells: seq<nat>, s: seq<Octet>) {
    exists c: nat :: (c == 0 || c in cells) && c < |sec| && sec[|sec| - 1] == 0 && Str(sec, c) == s
  }

  lemma ReadyFacts(sec: seq<Octet>, emitted: seq<StrPtr>, q: seq<StrPtr>, es: seq<seq<Octet>>, cells: seq<nat>)
    requires WfSection(sec) && DistinctOffsets(emitted) && UsesExactly(emitted, cells) && AllRelocated(sec, es, emitted)
    requires multiset(q) == multiset(emitted) && Ascending(es)
    ensures es != [] && es[0] == [] && Ready(sec, es, q, cells)
  {
    hide Relocated, Ascending, Len, Str;
    Reordered(emitted, q, cells);
    forall k {:trigger q[k]} | 0 <= k < |q| && q[k].used ensures Relocated(sec, es, q[k]) {
      var x := PermutedMember(q, emitted, k);
    }
    assert UsedStart(q, 0);
    var z :| 0 <= z < |q| && q[z].off == 0 && q[z].used;
    EmptyFirst(sec, es, q[z]);
    forall c | c in cells && c != 0 ensures IsStart(q, c) {
      assert UsedStart(q, c);
    }
    forall c, c' | c in cells && RemapsTo(q, c, c') ensures Moved(sec, es, c, c') {
      if c == 0 {
        MovedByPtr(sec, es, q[z], 0);
      } else {
        assert UsedStart(q, c);
        var u :| 0 <= u < |q| && q[u].off == c && q[u].used;
        var k :| 0 <= k < |q| && q[k].off == c && c' == q[k].newOff;
        assert u == k;
        MovedByPtr(sec, es, q[k], c');
      }
    }
  }

  lemma MovedByPtr(sec: seq<Octet>, es: seq<seq<Octet>>, ptr: StrPtr, c': nat)
    requires Relocated(sec, es, ptr) && c' == ptr.newOff
    ensures Moved(sec, es, ptr.off, c')
  {
  }

  lemma Concluded(sec: seq<Octet>, ts: seq<Desc>, ls: seq<LineSec>, es: seq<seq<Octet>>, ts': seq<Desc>,
      ls': seq<LineSec>)
    requires WfSection(sec) && Ascending(es) && es != [] && es[0] == []
    requires forall j {:trigger es[j]} :: 0 <= j < |es| ==> VisitedString(sec, Cells(ts, ls), es[j])
    requires |ts'| == |ts| && forall i {:trigger ts'[i]} :: 0 < i < |ts| ==> MovedDesc(sec, es, ts[i], ts'[i])
    requires |ls'| == |ls| && forall i {:trigger ls'[i]} :: 0 <= i < |ls| ==> MovedLine(sec, es, ls[i], ls'[i])
    ensures WfSection(Join(es)) && Deduplicated(sec, ts, ls, Join(es), ts', ls', es)
  {
    hide MovedDesc, MovedLine, Cells, Ascending;
    JoinBegins(es);
    assert Str(sec, 0) == [];
    forall j {:trigger es[j]} | 0 <= j < |es| ensures Referenced(sec, ts, ls, es[j]) {
      var c :| (c == 0 || c in Cells(ts, ls)) && c < |sec| && Str(sec, c) == es[j];
    }
  }

  lemma {:induction false} JoinBegins(es: seq<seq<Octet>>)
    requires es != [] && es[0] == []
    ensures WfSection(Join(es))
  {
    if |es| > 1 {
      JoinBegins(es[..|es| - 1]);
    } else {
      assert Join(es[..0]) == [];
    }
  }

  /** The empty string is the least, so it is emitted first, at offset 0. */
  lemma EmptyFirst(sec: seq<Octet>, es: seq<seq<Octet>>, ptr: StrPtr)
    requires WfSection(sec) && Ascending(es) && ptr.off == 0 && Relocated(sec, es, ptr)
    ensures es != [] && es[0] == [] && ptr.newOff == 0
  {
    assert Str(sec, 0) == [];
    var j :| 0 <= j < |es| && es[j] == Str(sec, ptr.off) && ptr.newOff == |Join(es[..j])|;
    if j > 0 {
      AtMostTotal(es[0], es[j]);
      assert false;
    }
  }

  method RemapDesc(d: Desc, q: seq<StrPtr>, ghost sec: seq<Octet>, ghost es: seq<seq<Octet>>) returns (d': Desc)
    requires SortedByOffset(q) && Ready(sec, es, q, Names(d))
    ensures MovedDesc(sec, es, d, d')
  {
    hide Names, Moved, WithNames, RemapsTo, SortedByOffset, AllStarts;
    var err, ns := RemapNames(q, Names(d));
    d' := WithNames(d, ns);
    WithNamesLaws(d, ns);
  }

  method RemapLine(l: LineSec, q: seq<StrPtr>, ghost sec: seq<Octet>, ghost es: seq<seq<Octet>>) returns (l': LineSec)
    requires SortedByOffset(q) && Ready(sec, es, q, LineNames(l))
    ensures MovedLine(sec, es, l, l')
  {
    hide Moved, RemapsTo, SortedByOffset, AllStarts;
    var err, ns := RemapNames(q, LineNames(l));
    l' := WithLineNames(l, ns);
    WithRecNamesLaws(l.recs, ns[1..]);
  }

  lemma CellsOfType(ts: seq<Desc>, ls: seq<LineSec>, i: nat)
    requires 0 < i < |ts|
    ensures forall k {:trigger Names(ts[i])[k]} :: 0 <= k < |Names(ts[i])| ==> Names(ts[i])[k] in Cells(ts, ls)
  {
    hide Names;
    forall k {:trigger Names(ts[i])[k]} | 0 <= k < |Names(ts[i])| ensures Names(ts[i])[k] in Cells(ts, ls) {
      TypeCellsHave(ts, |ts|, i, k);
    }
  }

  lemma CellsOfLine(ts: seq<Desc>, ls: seq<LineSec>, i: nat)
    requires i < |ls|
    ensures forall k {:trigger LineNames(ls[i])[k]} :: 0 <= k < |LineNames(ls[i])| ==>
        LineNames(ls[i])[k] in Cells(ts, ls)
  {
    hide LineNames;
    forall k {:trigger LineNames(ls[i])[k]} | 0 <= k < |LineNames(ls[i])| ensures LineNames(ls[i])[k] in Cells(ts, ls) {
      LineCellsHave(ls, |ls|, i, k);
    }
  }

  lemma NothingMarked(p: seq<StrPtr>)
    ensures MarkedBy(p, p, []) && AllStarts(p, [])
  {
  }

  lemma NotAll(p: seq<StrPtr>, ns: seq<nat>, all: seq<nat>)
    requires !AllStarts(p, ns) && forall k :: 0 <= k < |ns| ==> ns[k] in all
    ensures !AllStarts(p, all)
  {
    hide IsStart;
  }
}
