/** The AF_XDP rings (xsk.h): one producer and one consumer share two counters and a row
    of slots. Each side works on cached copies and touches the other side's counter only
    when its cache runs dry, once per call, so whole calls are the steps that interleave.

    The counters are 32-bit words that wrap. The state below counts without bound; the
    classes hold the words, and every call on them is tied to a step of that state. */
module XskRings {
  import opened Basics
  import opened Words

  /** Everything both sides know, with unbounded counters. The producer has handed out
      slots below `reserved` and may go up to `free` before looking at `released` again;
      entries below `submitted` are published. The consumer has seen entries below `seen`
      and taken those below `taken`; those below `released` are given back. `log` is
      every entry ever published. */
  datatype State<T> = State(
    size: nat, reserved: nat, free: nat, submitted: nat,
    released: nat, seen: nat, taken: nat, slots: seq<T>, log: seq<T>)

  function SlotOf(i: nat, size: nat): (r: nat)
    requires size > 0
    ensures r < size
  {
    i % size
  }

  /** Two positions less than a whole ring apart use different slots. */
  lemma DistinctSlots(i: nat, j: nat, size: nat)
    requires i < j < i + size
    ensures SlotOf(i, size) != SlotOf(j, size)
  {
    if SlotOf(i, size) == SlotOf(j, size) {
      var p, q := i / size, j / size;
      assert i == p * size + i % size && j == q * size + i % size;
      Distribute(q - p, p, size);
      assert 0 < (q - p) * size < size;
      if q > p {
        AtLeastOnce(q - p, size);
      } else {
        Distribute(p - q, q, size);
      }
      assert false;
    }
  }

  // ---------------------------------------------------------------- the steps

  function Initial<T>(slots: seq<T>): State<T> {
    State(|slots|, 0, |slots|, 0, 0, 0, 0, slots, [])
  }

  /** `xsk_prod_nb_free`: look at the consumer only if the cached room is too small. */
  function WithRoom<T>(a: State<T>, nb: nat): State<T> {
    if a.free >= a.reserved + nb then a else a.(free := a.released + a.size)
  }

  function ReserveCount<T>(a: State<T>, nb: nat): nat {
    if WithRoom(a, nb % TWO_32).free < a.reserved + nb then 0 else nb
  }

  /** `xsk_ring_prod__reserve`: all of the wanted slots, or none. */
  function Reserved<T>(a: State<T>, nb: nat): State<T> {
    WithRoom(a, nb % TWO_32).(reserved := a.reserved + ReserveCount(a, nb))
  }

  /** The program fills in a slot it has reserved. */
  function Written<T>(a: State<T>, i: nat, x: T): State<T>
    requires Wf(a) && a.submitted <= i < a.reserved
  {
    a.(slots := a.slots[SlotOf(i, a.size) := x])
  }

  /** The entries that `n` positions from `from` hold. */
  function Read<T>(a: State<T>, from: nat, n: nat): (r: seq<T>)
    requires Wf(a)
    ensures |r| == n
  {
    if n == 0 then [] else Read(a, from, n - 1) + [a.slots[SlotOf(from + n - 1, a.size)]]
  }

  /** `xsk_ring_prod__submit` publishes what the slots hold at that moment. */
  function Submitted<T>(a: State<T>, n: nat): State<T>
    requires Wf(a)
  {
    a.(submitted := a.submitted + n, log := a.log + Read(a, a.submitted, n))
  }

  /** `xsk_cons_nb_avail`: look at the producer only when nothing seen is left. */
  function WithSight<T>(a: State<T>): State<T> {
    if a.seen == a.taken then a.(seen := a.submitted) else a
  }

  function Available<T>(a: State<T>, n: nat): int {
    var entries := WithSight(a).seen - a.taken;
    if entries > n then n else entries
  }

  /** The size that `xsk_ring_cons__peek` is given is narrowed to 32 bits. */
  function PeekCount<T>(a: State<T>, nb: nat): int {
    Available(a, nb % TWO_32)
  }

  /** `xsk_ring_cons__peek`: up to `nb` of the entries in sight. */
  function Peeked<T>(a: State<T>, nb: nat): State<T>
    requires a.taken + PeekCount(a, nb) >= 0
  {
    WithSight(a).(taken := a.taken + PeekCount(a, nb))
  }

  /** `xsk_ring_cons__release` */
  function Released<T>(a: State<T>, n: nat): State<T> {
    a.(released := a.released + n)
  }

  // ---------------------------------------------------------------- the invariant

  ghost predicate Ordered<T>(a: State<T>) {
    a.released <= a.taken <= a.seen <= a.submitted <= a.reserved <= a.free <= a.released + a.size
  }

  predicate Wf<T>(a: State<T>) {
    a.size > 0 && |a.slots| == a.size
  }

  /** Every entry that is published and not yet released is still in its slot. */
  ghost predicate Kept<T>(a: State<T>)
    requires Wf(a) && |a.log| == a.submitted
  {
    forall i :: a.released <= i < a.submitted ==> a.log[i] == a.slots[SlotOf(i, a.size)]
  }

  ghost predicate Inv<T>(a: State<T>) {
    Wf(a) && Ordered(a) && |a.log| == a.submitted && Kept(a)
  }

  lemma WriteKeeps<T>(a: State<T>, i: nat, x: T)
    requires Inv(a) && a.submitted <= i < a.reserved
    ensures Inv(Written(a, i, x))
  {
    hide SlotOf;
    forall j | a.released <= j < a.submitted ensures SlotOf(j, a.size) != SlotOf(i, a.size) {
      DistinctSlots(j, i, a.size);
    }
  }

  lemma {:induction false} ReadAt<T>(a: State<T>, from: nat, n: nat, k: nat)
    requires Wf(a) && k < n
    ensures Read(a, from, n)[k] == a.slots[SlotOf(from + k, a.size)]
  {
    if k < n - 1 {
      ReadAt(a, from, n - 1, k);
    }
  }

  lemma SubmitKeeps<T>(a: State<T>, n: nat)
    requires Inv(a) && n <= a.reserved - a.submitted
    ensures Inv(Submitted(a, n))
  {
    hide SlotOf;
    var b := Submitted(a, n);
    forall i | a.released <= i < b.submitted ensures b.log[i] == b.slots[SlotOf(i, b.size)] {
      if i >= a.submitted {
        ReadAt(a, a.submitted, n, i - a.submitted);
        assert b.log[i] == Read(a, a.submitted, n)[i - a.submitted];
      }
    }
  }

  /** Published entries that are not released read back as they were published. */
  lemma {:induction false} ReadsLog<T>(a: State<T>, from: nat, n: nat)
    requires Inv(a) && a.released <= from && from + n <= a.submitted
    ensures Read(a, from, n) == a.log[from..from + n]
  {
    hide SlotOf;
    if n > 0 {
      ReadsLog(a, from, n - 1);
      assert a.log[from + n - 1] == a.slots[SlotOf(from + n - 1, a.size)];
      assert a.log[from..from + n] == a.log[from..from + n - 1] + [a.log[from + n - 1]];
    }
  }

  // ---------------------------------------------------------------- what the caches do not change

  /** The cached room is never stale enough to matter: a reservation succeeds exactly
      when that many slots are neither reserved nor unreleased. */
  lemma ReserveExact<T>(a: State<T>, nb: nat)
    requires Inv(a) && a.size < TWO_32
    ensures ReserveCount(a, nb) == if a.reserved - a.released + nb <= a.size then nb else 0
  {
    if nb < TWO_32 {
      assert nb % TWO_32 == nb;
    }
  }

  /** A peek comes back empty-handed exactly when nothing was asked for or everything
      published has been taken; otherwise it stays within both, and gives fewer than asked for
      only if it gives all that was in sight, or all there is when nothing was. */
  lemma PeekExact<T>(a: State<T>, nb: nat)
    requires Inv(a)
    ensures 0 <= PeekCount(a, nb) <= a.submitted - a.taken
    ensures PeekCount(a, nb) <= nb
    ensures PeekCount(a, nb) == 0 <==> nb % TWO_32 == 0 || a.submitted == a.taken
    ensures PeekCount(a, nb) < nb % TWO_32 ==> a.taken + PeekCount(a, nb) == if a.seen > a.taken then a.seen
        else a.submitted
  {
  }

  // ---------------------------------------------------------------- whole runs

  datatype Op<T> = OpReserve(nb: nat) | OpWrite(i: nat, x: T) | OpSubmit(n: nat) | OpPeek(nb: nat) | OpRelease(n: nat)

  /** What a well-behaved program and a well-behaved peer do: fill in only slots that are
      reserved and not submitted, submit no more than is reserved, release no more than is taken. */
  ghost predicate Allowed<T>(a: State<T>, op: Op<T>) {
    match op
    case OpWrite(i, _) => a.submitted <= i < a.reserved
    case OpSubmit(n) => a.submitted + n <= a.reserved
    case OpRelease(n) => a.released + n <= a.taken
    case _ => true
  }

  ghost function Step<T>(a: State<T>, op: Op<T>): State<T>
    requires Inv(a) && Allowed(a, op)
  {
    match op
    case OpReserve(nb) => Reserved(a, nb)
    case OpWrite(i, x) => Written(a, i, x)
    case OpSubmit(n) => Submitted(a, n)
    case OpPeek(nb) => Peeked(a, nb)
    case OpRelease(n) => Released(a, n)
  }

  /** Every step keeps the invariant, and published entries are never changed or withdrawn. */
  lemma StepKeeps<T>(a: State<T>, op: Op<T>)
    requires Inv(a) && Allowed(a, op)
    ensures Inv(Step(a, op))
    ensures a.log <= Step(a, op).log
    ensures a.taken <= Step(a, op).taken && a.released <= Step(a, op).released && a.size == Step(a, op).size
  {
    hide SlotOf;
    match op
    case OpWrite(i, x) => WriteKeeps(a, i, x);
    case OpSubmit(n) => SubmitKeeps(a, n);
    case _ =>
  }

  /** Both sides behave throughout. */
  ghost predicate Behaved<T>(a: State<T>, ops: seq<Op<T>>)
    requires Inv(a)
    decreases |ops|
  {
    ops != [] ==>
      Allowed(a, ops[0]) && (StepKeeps(a, ops[0]); Behaved(Step(a, ops[0]), ops[1..]))
  }

  ghost function Run<T>(a: State<T>, ops: seq<Op<T>>): State<T>
    requires Inv(a) && Behaved(a, ops)
    decreases |ops|
  {
    if ops == [] then a else StepKeeps(a, ops[0]); Run(Step(a, ops[0]), ops[1..])
  }

  lemma {:induction false} RunKeeps<T>(a: State<T>, ops: seq<Op<T>>)
    requires Inv(a) && Behaved(a, ops)
    ensures var b := Run(a, ops);
            Inv(b) && a.log <= b.log && a.taken <= b.taken && a.released <= b.released && a.size == b.size
    decreases |ops|
  {
    hide SlotOf, Inv;
    if ops != [] {
      StepKeeps(a, ops[0]);
      RunKeeps(Step(a, ops[0]), ops[1..]);
    }
  }

  /** What a step delivers is what it takes, as it was published. */
  ghost function StepDelivers<T>(a: State<T>, op: Op<T>): (r: seq<T>)
    requires Inv(a) && Allowed(a, op)
    ensures Step(a, op).taken == a.taken + |r|
    ensures Inv(Step(a, op)) && r == Step(a, op).log[a.taken..Step(a, op).taken]
  {
    StepKeeps(a, op);
    hide SlotOf, Kept, And;
    var c := Step(a, op);
    if op.OpPeek? then
      ReadsLog(c, a.taken, PeekCount(a, op.nb));
      Read(c, a.taken, PeekCount(a, op.nb))
    else []
  }

  /** What the consumer gets to read over a run: the slots of each peek, as it is made. */
  ghost function Delivered<T>(a: State<T>, ops: seq<Op<T>>): seq<T>
    requires Inv(a) && Behaved(a, ops)
    decreases |ops|
  {
    if ops == [] then [] else StepKeeps(a, ops[0]); StepDelivers(a, ops[0]) + Delivered(Step(a, ops[0]), ops[1..])
  }

  /** Over any interleaving of any length the consumer is delivered exactly the entries
      published, in the order they were published and once each, as far as it has taken. */
  lemma {:induction false} RunDelivers<T>(a: State<T>, ops: seq<Op<T>>)
    requires Inv(a) && Behaved(a, ops)
    ensures var b := Run(a, ops);
            Inv(b) && a.taken <= b.taken && Delivered(a, ops) == b.log[a.taken..b.taken]
    decreases |ops|
  {
    hide SlotOf, Kept, Step, StepDelivers, Allowed;
    var b := Run(a, ops);
    RunKeeps(a, ops);
    if ops != [] {
      var c := Step(a, ops[0]);
      StepKeeps(a, ops[0]);
      RunKeeps(c, ops[1..]);
      RunDelivers(c, ops[1..]);
      assert StepDelivers(a, ops[0]) == b.log[a.taken..c.taken];
      assert b.log[a.taken..b.taken] == b.log[a.taken..c.taken] + b.log[c.taken..b.taken];
    }
  }

  // ---------------------------------------------------------------- what the operations alone say

  /** What the last write to position `i` has stored. */
  function LastWrite<T>(ops: seq<Op<T>>, i: nat): Option<T> {
    if ops == [] then None
    else
      var op := ops[|ops| - 1];
      if op.OpWrite? && op.i == i then Some(op.x) else LastWrite(ops[..|ops| - 1], i)
  }

  /** The entry of position `i`, from the list of operations: what was last written to it; what
      the position one round earlier held if nothing was; at last what was there at the start. */
  function Entry<T>(slots: seq<T>, ops: seq<Op<T>>, i: nat): T
    requires slots != []
  {
    var w := LastWrite(ops, i);
    if w.Some? then w.value else if i < |slots| then slots[i] else Entry(slots, ops, i - |slots|)
  }

  function Entries<T>(slots: seq<T>, ops: seq<Op<T>>, n: nat): seq<T>
    requires slots != []
  {
    seq(n, i requires 0 <= i < n => Entry(slots, ops, i))
  }

  /** How far each side has come: positions reserved, submitted, in the consumer's sight, taken
      and released. */
  datatype Ledger = Ledger(reserved: nat, submitted: nat, seen: nat, taken: nat, released: nat)

  /** The books kept by the operations alone, without the producer's cached counter: a reservation
      is granted if the ring has room for it, and a peek gives as many as are asked for of those in
      sight, with a new look at the ring only when nothing seen is left. */
  function Books<T>(size: nat, ops: seq<Op<T>>): Ledger {
    if ops == [] then Ledger(0, 0, 0, 0, 0)
    else
      var l := Books(size, ops[..|ops| - 1]);
      match ops[|ops| - 1]
      case OpReserve(nb) => if l.reserved + nb <= l.released + size then l.(reserved := l.reserved + nb) else l
      case OpWrite(_, _) => l
      case OpSubmit(n) => l.(submitted := l.submitted + n)
      case OpPeek(nb) =>
        var seen := if l.seen > l.taken then l.seen else l.submitted;
        var asked := nb % TWO_32;
        l.(seen := seen, taken := if l.taken + asked <= seen then l.taken + asked else seen)
      case OpRelease(n) => l.(released := l.released + n)
  }

  function LedgerOf<T>(a: State<T>): Ledger { Ledger(a.reserved, a.submitted, a.seen, a.taken, a.released) }

  /** The state after `past`, as far as entries go: the published ones are in the log, every slot
      holds the entry of its next position, and nothing is written ahead. */
  ghost predicate Explained<T>(slots: seq<T>, past: seq<Op<T>>, a: State<T>) {
    && slots != [] && |slots| == a.size == |a.slots| && |a.log| == a.submitted
    && (forall i: nat :: i < a.submitted ==> a.log[i] == Entry(slots, past, i))
    && (forall i: nat :: a.submitted <= i < a.submitted + a.size ==>
          a.slots[SlotOf(i, a.size)] == Entry(slots, past, i))
    && (forall i: nat :: a.reserved <= i ==> LastWrite(past, i).None?)
  }

  lemma LastWriteNext<T>(ops: seq<Op<T>>, op: Op<T>, i: nat)
    ensures LastWrite(ops + [op], i) == if op.OpWrite? && op.i == i then Some(op.x) else LastWrite(ops, i)
  {
    assert (ops + [op])[..|ops + [op]| - 1] == ops;
  }

  /** An operation that writes nothing changes no entry, and a write none of the positions before
      it or at most one round behind. */
  lemma {:induction false} EntryNext<T>(slots: seq<T>, ops: seq<Op<T>>, op: Op<T>, i: nat)
    requires slots != [] && (op.OpWrite? ==> i < op.i + |slots| && i != op.i)
    ensures Entry(slots, ops + [op], i) == Entry(slots, ops, i)
    decreases i
  {
    LastWriteNext(ops, op, i);
    if i >= |slots| {
      EntryNext(slots, ops, op, i - |slots|);
    }
  }

  lemma SlotNextRound(i: nat, size: nat)
    requires size > 0 && i >= size
    ensures SlotOf(i, size) == SlotOf(i - size, size)
  {
    ModShift(1, i - size, size);
  }

  lemma WriteExplained<T>(slots: seq<T>, past: seq<Op<T>>, a: State<T>, i: nat, x: T)
    requires Inv(a) && Explained(slots, past, a) && Allowed(a, OpWrite(i, x))
    ensures Explained(slots, past + [OpWrite(i, x)], Written(a, i, x))
  {
    hide SlotOf, Kept, Entry;
    var b, now := Written(a, i, x), past + [OpWrite(i, x)];
    forall j: nat | j < a.submitted + a.size && j != i ensures Entry(slots, now, j) == Entry(slots, past, j) {
      EntryNext(slots, past, OpWrite(i, x), j);
    }
    forall j: nat | a.submitted <= j < a.submitted + a.size ensures b.slots[SlotOf(j, a.size)] == Entry(slots, now, j) {
      if j == i {
        LastWriteNext(past, OpWrite(i, x), i);
        EntryWritten(slots, now, i);
      } else if j < i {
        DistinctSlots(j, i, a.size);
      } else {
        DistinctSlots(i, j, a.size);
      }
    }
    forall j: nat | b.reserved <= j ensures LastWrite(now, j).None? {
      LastWriteNext(past, OpWrite(i, x), j);
    }
  }

  lemma EntryWritten<T>(slots: seq<T>, ops: seq<Op<T>>, i: nat)
    requires slots != [] && LastWrite(ops, i).Some?
    ensures Entry(slots, ops, i) == LastWrite(ops, i).value
  {
  }

  lemma EntryBehind<T>(slots: seq<T>, ops: seq<Op<T>>, i: nat)
    requires slots != [] && LastWrite(ops, i).None? && i >= |slots|
    ensures Entry(slots, ops, i) == Entry(slots, ops, i - |slots|)
  {
  }

  /** No other operation changes an entry. */
  lemma EntriesStay<T>(slots: seq<T>, past: seq<Op<T>>, op: Op<T>)
    requires slots != [] && !op.OpWrite?
    ensures forall i: nat :: Entry(slots, past + [op], i) == Entry(slots, past, i)
    ensures forall i: nat :: LastWrite(past + [op], i) == LastWrite(past, i)
  {
    hide Entry;
    forall i: nat ensures Entry(slots, past + [op], i) == Entry(slots, past, i) {
      EntryNext(slots, past, op, i);
    }
    forall i: nat ensures LastWrite(past + [op], i) == LastWrite(past, i) {
      LastWriteNext(past, op, i);
    }
  }

  lemma SubmitExplained<T>(slots: seq<T>, past: seq<Op<T>>, a: State<T>, n: nat)
    requires Inv(a) && Explained(slots, past, a) && Allowed(a, Op<T>.OpSubmit(n))
    ensures Explained(slots, past + [OpSubmit(n)], Submitted(a, n))
  {
    hide SlotOf, Kept, Entry, LastWrite;
    EntriesStay(slots, past, OpSubmit(n));
    var b := Submitted(a, n);
    forall i: nat | i < b.submitted ensures b.log[i] == Entry(slots, past, i) {
      if i >= a.submitted {
        ReadAt(a, a.submitted, n, i - a.submitted);
        assert b.log[i] == Read(a, a.submitted, n)[i - a.submitted];
      }
    }
    forall i: nat | b.submitted <= i < b.submitted + b.size
      ensures b.slots[SlotOf(i, b.size)] == Entry(slots, past, i)
    {
      if i >= a.submitted + a.size {
        SlotNextRound(i, a.size);
        EntryBehind(slots, past, i);
      }
    }
  }

  lemma StepExplained<T>(slots: seq<T>, past: seq<Op<T>>, a: State<T>, op: Op<T>)
    requires Inv(a) && Explained(slots, past, a) && Allowed(a, op)
    ensures Explained(slots, past + [op], Step(a, op))
  {
    hide SlotOf, Kept, Entry, LastWrite;
    if op.OpWrite? {
      WriteExplained(slots, past, a, op.i, op.x);
    } else if op.OpSubmit? {
      SubmitExplained(slots, past, a, op.n);
    } else {
      EntriesStay(slots, past, op);
    }
  }

  lemma StepBooked<T>(past: seq<Op<T>>, a: State<T>, op: Op<T>)
    requires Inv(a) && Allowed(a, op) && a.size < TWO_32 && LedgerOf(a) == Books(a.size, past)
    ensures LedgerOf(Step(a, op)) == Books(a.size, past + [op])
  {
    assert (past + [op])[..|past + [op]| - 1] == past;
    if op.OpReserve? {
      ReserveExact(a, op.nb);
    }
  }

  /** Every published entry of a run is the one that the operations say, and the counters are those
      of the books. */
  lemma {:induction false} RunExplained<T>(slots: seq<T>, past: seq<Op<T>>, a: State<T>, ops: seq<Op<T>>)
    requires Inv(a) && Behaved(a, ops) && Explained(slots, past, a)
    ensures Explained(slots, past + ops, Run(a, ops))
    ensures a.size < TWO_32 && LedgerOf(a) == Books(a.size, past) ==> LedgerOf(Run(a, ops)) == Books(a.size, past + ops)
    decreases |ops|
  {
    hide Explained, Inv, SlotOf, Books, LedgerOf, Step;
    if ops == [] {
      assert past + ops == past;
    } else {
      StepKeeps(a, ops[0]);
      StepExplained(slots, past, a, ops[0]);
      if a.size < TWO_32 && LedgerOf(a) == Books(a.size, past) {
        StepBooked(past, a, ops[0]);
      }
      RunExplained(slots, past + [ops[0]], Step(a, ops[0]), ops[1..]);
      assert past + [ops[0]] + ops[1..] == past + ops;
    }
  }

  lemma StartExplained<T>(slots: seq<T>)
    requires slots != []
    ensures Explained(slots, [], Initial(slots))
  {
    forall i: nat | i < |slots| ensures slots[SlotOf(i, |slots|)] == Entry(slots, [], i) {
      assert SlotOf(i, |slots|) == i;
    }
  }

  lemma StartsEmpty<T>(slots: seq<T>)
    ensures LedgerOf(Initial(slots)) == Books<T>(|slots|, []) && Initial(slots).size == |slots|
    ensures Initial(slots).taken == 0
  {
  }

  /** From an empty ring: in every reachable state no slot that the producer may write is
      one that the consumer may still read, and what the consumer has taken are the entries
      that the operations wrote, first in first out, once each and none that was not submitted. */
  lemma RingSafety<T>(slots: seq<T>, ops: seq<Op<T>>)
    requires slots != [] && Behaved(Initial(slots), ops)
    ensures var b := Run(Initial(slots), ops);
      && Inv(b) && b.size == |slots|
      && (|slots| < TWO_32 ==> LedgerOf(b) == Books(|slots|, ops)) && b.taken <= b.submitted
      && b.log == Entries(slots, ops, b.submitted)
      && Delivered(Initial(slots), ops) == Entries(slots, ops, b.taken)
      && forall i: nat, j: nat :: b.released <= i < b.submitted && b.submitted <= j < b.reserved
           ==> SlotOf(i, b.size) != SlotOf(j, b.size)
  {
    hide SlotOf;
    assert Inv(Initial(slots));
    StartExplained(slots);
    hide Kept, Initial, Entry, LastWrite;
    var b := Run(Initial(slots), ops);
    RunKeeps(Initial(slots), ops);
    RunDelivers(Initial(slots), ops);
    RunExplained(slots, [], Initial(slots), ops);
    assert [] + ops == ops;
    StartsEmpty(slots);
    assert b.log[..b.taken] == Entries(slots, ops, b.taken);
    forall i: nat, j: nat | b.released <= i < b.submitted && b.submitted <= j < b.reserved
      ensures SlotOf(i, b.size) != SlotOf(j, b.size)
    {
      DistinctSlots(i, j, b.size);
    }
  }

  /** However late the consumer reads an entry it has taken and not released, it finds
      what was published. */
  lemma LateRead<T>(a: State<T>, ops: seq<Op<T>>, i: nat)
    requires Inv(a) && Behaved(a, ops) && i < a.submitted && Run(a, ops).released <= i
    ensures var b := Run(a, ops); Inv(b) && b.slots[SlotOf(i, b.size)] == a.log[i]
  {
    hide SlotOf;
    RunKeeps(a, ops);
    assert Run(a, ops).log[i] == a.log[i];
  }

  // ---------------------------------------------------------------- the 32-bit code

  ghost predicate RingSize(size: nat) {
    exists n: nat :: n <= 31 && size == Pow2(n)
  }

  /** `idx & mask` selects the slot of the unbounded position behind `idx`, because the
      size divides the wrap. */
  lemma SlotOfWrapped(i: nat, size: nat)
    requires RingSize(size)
    ensures 0 < size < TWO_32
    ensures And(i % TWO_32, size - 1) == SlotOf(i, size)
  {
    var n: nat :| n <= 31 && size == Pow2(n);
    MaskIsMod(i % TWO_32, n);
    Pow2Adds(32 - n, n);
    Pow2Adds(31 - n, n);
    Pow2Words();
    hide Pow2, And;
    AtLeastOnce(Pow2(31 - n), size);
    ModMod(i, size, Pow2(32 - n), TWO_32);
  }

  /** The memory both sides map: the two counters and the descriptors. */
  class Shared<T> {
    var producer: U32
    var consumer: U32
    const ring: array<T>

    ghost predicate Holds(a: State<T>)
      reads this, ring
    {
      && producer == a.submitted % TWO_32
      && consumer == a.released % TWO_32
      && ring[..] == a.slots
    }

    constructor (ring: array<T>)
      ensures this.ring == ring && Holds(Initial(ring[..]))
    {
      this.ring, producer, consumer := ring, 0, 0;
    }
  }

  /** `struct xsk_ring_prod` */
  class Producer<T> {
    var cachedProd: U32
    var cachedCons: U32
    const mask: U32
    const size: U32
    const shared: Shared<T>

    ghost predicate Holds(a: State<T>)
      reads this
    {
      && Inv(a) && RingSize(size) && size == a.size && mask == size - 1
      && cachedProd == a.reserved % TWO_32
      && cachedCons == a.free % TWO_32
    }

    /** The fields that `xsk_umem__create` and `xsk_socket__create` set, on a zeroed structure. */
    constructor (size: U32, shared: Shared<T>)
      requires RingSize(size) && shared.ring.Length == size
      ensures this.shared == shared && Holds(Initial(shared.ring[..]))
    {
      this.size, this.shared, mask := size, shared, size - 1;
      cachedProd, cachedCons := 0, size;
    }

    /** `xsk_prod_nb_free` */
    method NbFree(nb: U32, ghost a: State<T>) returns (n: U32)
      requires Holds(a) && shared.Holds(a)
      modifies this`cachedCons
      ensures Holds(WithRoom(a, nb))
      ensures n == WithRoom(a, nb).free - a.reserved
    {
      SizeBound(size);
      hide RingSize, Kept, SlotOf;
      WrappedDifference(a.free, a.reserved);
      var freeEntries := Sub32(cachedCons, cachedProd);
      if freeEntries >= nb {
        return freeEntries;
      }
      WrappedSum(a.released, size);
      WrappedDifference(a.released + a.size, a.reserved);
      cachedCons := Add32(shared.consumer, size);
      n := Sub32(cachedCons, cachedProd);
    }

    /** `xsk_ring_prod__reserve`: `nb` is a 64-bit size that the inner call narrows. */
    method Reserve(nb: nat, ghost a: State<T>) returns (n: nat, idx: U32)
      requires Holds(a) && shared.Holds(a)
      modifies this
      ensures n == ReserveCount(a, nb) && Holds(Reserved(a, nb))
      ensures n > 0 ==> idx == a.reserved % TWO_32
    {
      StepKeeps(a, OpReserve(nb));
      hide RingSize, Kept, SlotOf;
      idx := 0;
      var nbFree := NbFree(nb % TWO_32, a);
      if nbFree < nb {
        return 0, idx;
      }
      idx := cachedProd;
      WrappedSum(a.reserved, nb);
      cachedProd := Add32(cachedProd, nb);
      n := nb;
    }

    /** `xsk_ring_prod__fill_addr` and `xsk_ring_prod__tx_desc`, and the store through them. */
    method WriteSlot(idx: U32, x: T, ghost a: State<T>, ghost i: nat)
      requires Holds(a) && shared.Holds(a) && a.submitted <= i < a.reserved && idx == i % TWO_32
      modifies shared.ring
      ensures Holds(Written(a, i, x)) && shared.Holds(Written(a, i, x))
    {
      SlotOfWrapped(i, size);
      WriteKeeps(a, i, x);
      hide SlotOf, And, RingSize;
      shared.ring[And(idx, mask)] := x;
    }

    /** `xsk_ring_prod__submit` */
    method Submit(nb: nat, ghost a: State<T>)
      requires Holds(a) && shared.Holds(a) && a.submitted + nb <= a.reserved
      modifies shared`producer
      ensures Holds(Submitted(a, nb)) && shared.Holds(Submitted(a, nb))
    {
      SubmitKeeps(a, nb);
      WrappedSum(a.submitted, nb);
      hide SlotOf, RingSize;
      shared.producer := Add32(shared.producer, nb);
    }
  }

  /** `struct xsk_ring_cons` */
  class Consumer<T> {
    var cachedProd: U32
    var cachedCons: U32
    const mask: U32
    const size: U32
    const shared: Shared<T>

    ghost predicate Holds(a: State<T>)
      reads this
    {
      && Inv(a) && RingSize(size) && size == a.size && mask == size - 1
      && cachedProd == a.seen % TWO_32
      && cachedCons == a.taken % TWO_32
    }

    constructor (size: U32, shared: Shared<T>)
      requires RingSize(size) && shared.ring.Length == size
      ensures this.shared == shared && Holds(Initial(shared.ring[..]))
    {
      this.size, this.shared, mask := size, shared, size - 1;
      cachedProd, cachedCons := 0, 0;
    }

    /** `xsk_cons_nb_avail` */
    method NbAvail(nb: U32, ghost a: State<T>) returns (n: U32)
      requires Holds(a) && shared.Holds(a)
      modifies this`cachedProd
      ensures Holds(WithSight(a))
      ensures n == Available(a, nb)
    {
      SizeBound(size);
      hide RingSize, Kept, SlotOf;
      WrappedDifference(a.seen, a.taken);
      var entries := Sub32(cachedProd, cachedCons);
      if entries == 0 {
        WrappedDifference(a.submitted, a.taken);
        cachedProd := shared.producer;
        entries := Sub32(cachedProd, cachedCons);
      }
      n := if entries > nb then nb else entries;
    }

    /** `xsk_ring_cons__peek` */
    method Peek(nb: nat, ghost a: State<T>) returns (n: nat, idx: U32)
      requires Holds(a) && shared.Holds(a)
      modifies this
      ensures n == PeekCount(a, nb) && Holds(Peeked(a, nb))
      ensures n > 0 ==> idx == a.taken % TWO_32
    {
      StepKeeps(a, OpPeek(nb));
      hide RingSize, Inv, SlotOf, Available, WithSight;
      idx := 0;
      n := NbAvail(nb % TWO_32, a);
      if n > 0 {
        idx := cachedCons;
        WrappedSum(a.taken, n);
        cachedCons := Add32(cachedCons, n);
      }
    }

    /** `xsk_ring_cons__comp_addr` and `xsk_ring_cons__rx_desc`, and the load through them. */
    method ReadSlot(idx: U32, ghost a: State<T>, ghost i: nat) returns (x: T)
      requires Holds(a) && shared.Holds(a) && a.released <= i < a.taken && idx == i % TWO_32
      ensures x == a.log[i]
    {
      SlotOfWrapped(i, size);
      hide SlotOf, And, RingSize;
      x := shared.ring[And(idx, mask)];
    }

    /** `xsk_ring_cons__release` */
    method Release(nb: nat, ghost a: State<T>)
      requires Holds(a) && shared.Holds(a) && a.released + nb <= a.taken
      modifies shared`consumer
      ensures Holds(Released(a, nb)) && shared.Holds(Released(a, nb))
    {
      WrappedSum(a.released, nb);
      shared.consumer := Add32(shared.consumer, nb);
    }
  }

  // ---------------------------------------------------------------- both sides together

  /** The two sides and what they share represent one state. */
  ghost predicate Together<T>(p: Producer<T>, c: Consumer<T>, a: State<T>)
    reads p, c, p.shared, p.shared.ring
  {
    p.shared == c.shared && p.Holds(a) && c.Holds(a) && p.shared.Holds(a)
  }

  /** One step of either side, on the words. Each side's calls leave the other side in place. */
  method StepBoth<T>(p: Producer<T>, c: Consumer<T>, op: Op<T>, ghost a: State<T>) returns (delivered: seq<T>)
    requires Together(p, c, a) && Allowed(a, op)
    modifies p, c, p.shared, p.shared.ring
    ensures Together(p, c, Step(a, op)) && delivered == StepDelivers(a, op)
  {
    hide Kept, SlotOf, RingSize, And, ReserveCount, Ordered;
    StepKeeps(a, op);
    delivered := [];
    match op
    case OpReserve(nb) =>
      var n, idx := p.Reserve(nb, a);
    case OpWrite(i, x) =>
      p.WriteSlot(i % TWO_32, x, a, i);
    case OpSubmit(n) =>
      p.Submit(n, a);
    case OpPeek(nb) =>
      delivered := PeekAndRead(p, c, nb, a);
    case OpRelease(n) =>
      c.Release(n, a);
  }

  /** A peek, and the loads of the slots that it hands out. */
  method PeekAndRead<T>(ghost p: Producer<T>, c: Consumer<T>, nb: nat, ghost a: State<T>) returns (delivered: seq<T>)
    requires Together(p, c, a)
    modifies c
    ensures a.taken + PeekCount(a, nb) >= 0 && Together(p, c, Peeked(a, nb)) && delivered == StepDelivers(a, OpPeek(nb))
  {
    hide Kept, SlotOf, RingSize, And, WithSight, Available, Ordered;
    PeekExact(a, nb);
    StepKeeps(a, OpPeek(nb));
    ghost var b := Peeked(a, nb);
    PeekLeaves(a, nb);
    var n, idx := c.Peek(nb, a);
    assert Together(p, c, b);
    delivered := [];
    for k := 0 to n
      invariant Together(p, c, b) && |delivered| == k && delivered == b.log[a.taken..a.taken + k]
    {
      WrappedSum(a.taken, k);
      var x := c.ReadSlot(Add32(idx, k), b, a.taken + k);
      delivered := delivered + [x];
    }
  }

  /** A peek changes nothing that the other side relies on. */
  lemma PeekLeaves<T>(a: State<T>, nb: nat)
    requires Inv(a) && a.taken + PeekCount(a, nb) >= 0
    ensures var b := Peeked(a, nb);
      && b.size == a.size && b.reserved == a.reserved && b.free == a.free && b.submitted == a.submitted
          && b.released == a.released
      && b.slots == a.slots && b.log == a.log && b.taken == a.taken + PeekCount(a, nb) && b.released <= a.taken
          && b.taken <= b.submitted
  {
  }

  /** A whole run of both sides, in the order in which their calls interleave. */
  method Execute<T>(p: Producer<T>, c: Consumer<T>, ops: seq<Op<T>>, ghost a: State<T>) returns (delivered: seq<T>)
    requires Together(p, c, a) && Behaved(a, ops)
    modifies p, c, p.shared, p.shared.ring
    ensures Together(p, c, Run(a, ops)) && delivered == Delivered(a, ops)
    decreases |ops|
  {
    hide Kept, SlotOf, RingSize, Allowed, Step, StepDelivers;
    delivered := [];
    if ops != [] {
      StepKeeps(a, ops[0]);
      var first := StepBoth(p, c, ops[0], a);
      var rest := Execute(p, c, ops[1..], Step(a, ops[0]));
      delivered := first + rest;
    }
  }

  /** The 32-bit code on an empty ring: over every run in which both sides behave, the consumer
      reads what the operations wrote and submitted, in order and once each, and no slot that the producer may write
      is one that the consumer may still read. */
  method RunRing<T>(ring: array<T>, ops: seq<Op<T>>) returns (delivered: seq<T>, ghost b: State<T>)
    requires ring.Length < TWO_32 && RingSize(ring.Length) && ring.Length > 0 && Behaved(Initial(ring[..]), ops)
    modifies ring
    ensures b == Run(Initial(old(ring[..])), ops) && Inv(b) && b.size == ring.Length
    ensures LedgerOf(b) == Books(ring.Length, ops) && b.taken <= b.submitted
    ensures delivered == Entries(old(ring[..]), ops, b.taken) && ring[..] == b.slots
    ensures forall i: nat, j: nat :: b.released <= i < b.submitted && b.submitted <= j < b.reserved ==>
        SlotOf(i, b.size) != SlotOf(j, b.size)
  {
    ghost var a := Initial(ring[..]);
    hide Kept, SlotOf, RingSize, Behaved, Run;
    RingSafety(ring[..], ops);
    b := Run(a, ops);
    var shared := new Shared(ring);
    var p := new Producer(ring.Length, shared);
    var c := new Consumer(ring.Length, shared);
    delivered := Execute(p, c, ops, a);
  }

  lemma SizeBound(size: nat)
    requires RingSize(size)
    ensures 0 < size < TWO_32
  {
    SlotOfWrapped(0, size);
  }
}
