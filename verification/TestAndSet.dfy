/**
 The test-and-set instructions on memory shared with a second CPU: the memory lock, the exchange
 a shared bank offers, and the other side's locked test-and-sets and unlocked releases,
 interleaved step by step.
 */
module TestAndSet {
  import opened Words

  const TAKEN: word := 0xFFFF

  datatype Side = Nd100 | Nd5000

  datatype Holder = Nobody | Held(side: Side)

  // How far the ND-100 is inside the instruction, and the other CPU inside its own test-and-set.
  datatype Phase = Idle | Begun(cell: nat) | HasRead(cell: nat) | HasWritten(cell: nat) | HasTaken(cell: nat)

  datatype Other = Away | Locked(cell: nat) | Exchanged(cell: nat, found: word)

  // What the shared memory sees: whole test-and-sets and plain stores.
  datatype Event = Swap(side: Side, cell: nat, found: word) | Store(side: Side, cell: nat, value: word)

  datatype Call = Lock | Unlock

  // locking: the pair of lock functions is installed; exchange: the bank offers one.
  datatype State = State(
    locking: bool, exchange: bool,
    cells: seq<word>, lock: Holder,
    held: bool, taken: word, oldValid: bool, a: word,
    phase: Phase, other: Other,
    log: seq<Event>, calls: seq<Call>, results: seq<word>,
    mine: set<nat>, theirs: set<nat>)

  datatype Action =
    | Begin(cell: nat) | Read | Write | Take | End | Fault
    | Free(cell: nat, value: word)
    | TheirLock(cell: nat) | TheirExchange | TheirUnlock | TheirFree(cell: nat, value: word)

  // ---- One step; an action whose time has not come changes nothing ----

  function LockBegin(s: State): State {
    if s.locking && !s.held
    then s.(oldValid := false, held := true, lock := Held(Nd100), calls := s.calls + [Lock])
    else s.(oldValid := false)
  }

  function LockEnd(s: State): State {
    if s.held then s.(held := false, lock := Nobody, calls := s.calls + [Unlock]) else s
  }

  // A word write of the ND-100 into the bank.
  function WriteWord(s: State, cell: nat, value: word): State
    requires cell < |s.cells|
  {
    if s.held && s.exchange
    then s.(taken := s.cells[cell], oldValid := true, cells := s.cells[cell := value],
            log := s.log + [Swap(Nd100, cell, s.cells[cell])])
    else s.(cells := s.cells[cell := value], log := s.log + [Store(Nd100, cell, value)])
  }

  predicate Enabled(s: State, x: Action) {
    match x
    case Begin(c) => s.phase.Idle? && c < |s.cells| && (s.locking && !s.held ==> s.lock == Nobody)
    case Read => s.phase.Begun? && s.phase.cell < |s.cells|
    case Write => s.phase.HasRead? && s.phase.cell < |s.cells|
    case Take => s.phase.HasWritten?
    case End => s.phase.HasTaken?
    case Fault => s.phase.Begun? || s.phase.HasRead?
    case Free(c, v) => s.phase.Idle? && c in s.mine && c < |s.cells| && v != TAKEN
    case TheirLock(c) => s.other.Away? && s.lock == Nobody && c < |s.cells|
    case TheirExchange => s.other.Locked? && s.other.cell < |s.cells|
    case TheirUnlock => s.other.Exchanged?
    case TheirFree(c, v) => s.other.Away? && c in s.theirs && c < |s.cells| && v != TAKEN
  }

  function Step(s: State, x: Action): State {
    if !Enabled(s, x) then s
    else
      match x
      case Begin(c) => LockBegin(s).(phase := Begun(c))
      case Read => s.(a := s.cells[s.phase.cell], phase := HasRead(s.phase.cell))
      case Write => WriteWord(s, s.phase.cell, TAKEN).(phase := HasWritten(s.phase.cell))
      case Take =>
        (if s.oldValid then s.(a := s.taken, oldValid := false) else s).(phase := HasTaken(s.phase.cell))
      case End =>
        LockEnd(s).(phase := Idle, results := s.results + [s.a],
                    mine := if s.a != TAKEN then s.mine + {s.phase.cell} else s.mine)
      case Fault => LockEnd(s).(phase := Idle)
      case Free(c, v) =>
        s.(cells := s.cells[c := v], log := s.log + [Store(Nd100, c, v)], mine := s.mine - {c})
      case TheirLock(c) => s.(lock := Held(Nd5000), other := Locked(c))
      case TheirExchange =>
        s.(cells := s.cells[s.other.cell := TAKEN], other := Exchanged(s.other.cell, s.cells[s.other.cell]),
           log := s.log + [Swap(Nd5000, s.other.cell, s.cells[s.other.cell])])
      case TheirUnlock =>
        s.(lock := Nobody, other := Away,
           theirs := if s.other.found != TAKEN then s.theirs + {s.other.cell} else s.theirs)
      case TheirFree(c, v) =>
        s.(cells := s.cells[c := v], log := s.log + [Store(Nd5000, c, v)], theirs := s.theirs - {c})
  }

  function Run(s: State, xs: seq<Action>): State
    decreases |xs|
  {
    if xs == [] then s else Run(Step(s, xs[0]), xs[1..])
  }

  lemma {:induction false} RunConcat(s: State, xs: seq<Action>, ys: seq<Action>)
    ensures Run(s, xs + ys) == Run(Run(s, xs), ys)
    decreases |xs|
  {
    if xs == [] {
      assert xs + ys == ys;
    } else {
      RunConcat(Step(s, xs[0]), xs[1..], ys);
      assert (xs + ys)[0] == xs[0] && (xs + ys)[1..] == xs[1..] + ys;
    }
  }

  // ---- The simple machine: every access to the bank is one indivisible event ----

  function Apply(cells: seq<word>, e: Event): seq<word> {
    if e.cell >= |cells| then cells
    else cells[e.cell := if e.Swap? then TAKEN else e.value]
  }

  function Replay(cells: seq<word>, log: seq<Event>): (r: seq<word>)
    ensures |r| == |cells|
    decreases |log|
  {
    if log == [] then cells else Apply(Replay(cells, log[..|log| - 1]), log[|log| - 1])
  }

  // Every swap of the log found the word the simple machine holds at that moment.
  ghost predicate Faithful(cells: seq<word>, log: seq<Event>) {
    forall i :: 0 <= i < |log| && log[i].Swap? ==> FoundAt(cells, log, i)
  }

  ghost predicate FoundAt(cells: seq<word>, log: seq<Event>, i: nat)
    requires i < |log| && log[i].Swap?
  {
    log[i].cell < |cells| && log[i].found == Replay(cells, log[..i])[log[i].cell]
  }

  // The words one side's swaps found, in order.
  function Founds(log: seq<Event>, side: Side): seq<word>
    decreases |log|
  {
    if log == [] then []
    else
      var e := log[|log| - 1];
      Founds(log[..|log| - 1], side) + (if e.Swap? && e.side == side then [e.found] else [])
  }

  lemma FoundsSnoc(log: seq<Event>, e: Event, side: Side)
    ensures Founds(log + [e], side) == Founds(log, side) + (if e.Swap? && e.side == side then [e.found] else [])
  {
    assert (log + [e])[..|log|] == log;
  }

  lemma LogExtends(cells: seq<word>, log: seq<Event>, e: Event)
    requires Faithful(cells, log)
    requires e.Swap? ==> e.cell < |cells| && e.found == Replay(cells, log)[e.cell]
    ensures Faithful(cells, log + [e]) && Replay(cells, log + [e]) == Apply(Replay(cells, log), e)
  {
    var more := log + [e];
    assert more[..|log|] == log;
    forall i | 0 <= i < |more| && more[i].Swap?
      ensures FoundAt(cells, more, i)
    {
      if i < |log| {
        assert FoundAt(cells, log, i);
        assert more[..i] == log[..i];
      }
    }
  }

  // ---- What every step keeps ----

  predicate Alternates(calls: seq<Call>) {
    forall i :: 0 <= i < |calls| ==> calls[i] == if i % 2 == 0 then Lock else Unlock
  }

  ghost predicate Locks(s: State) {
    && s.held == (!s.phase.Idle? && s.locking)
    && s.held == (s.lock == Held(Nd100))
    && s.other.Away? == (s.lock != Held(Nd5000))
    && Alternates(s.calls) && (|s.calls| % 2 == 1 <==> s.held)
  }

  // The swap of the instruction under way, once made and not yet reported.
  function Pending(s: State): seq<word> {
    if s.phase.HasWritten? then [s.taken] else if s.phase.HasTaken? then [s.a] else []
  }

  // Cells a side holds or is about to learn that it holds.
  function MyClaims(s: State): set<nat> {
    var pending := (s.phase.HasWritten? && s.taken != TAKEN) || (s.phase.HasTaken? && s.a != TAKEN);
    s.mine + (if pending then {s.phase.cell} else {})
  }

  function TheirClaims(s: State): set<nat> {
    s.theirs + (if s.other.Exchanged? && s.other.found != TAKEN then {s.other.cell} else {})
  }

  ghost predicate Owned(s: State) {
    && MyClaims(s) !! TheirClaims(s)
    && (forall c :: c in MyClaims(s) || c in TheirClaims(s) ==> c < |s.cells| && s.cells[c] == TAKEN)
  }

  ghost predicate Linear(cells: seq<word>, s: State) {
    && |s.cells| == |cells|
    && Faithful(cells, s.log) && s.cells == Replay(cells, s.log)
    && Founds(s.log, Nd100) == s.results + Pending(s)
    && (s.phase.HasWritten? ==> s.oldValid)
    && (!s.phase.Idle? ==> s.phase.cell < |cells|)
  }

  ghost predicate Inv(cells: seq<word>, s: State) {
    Locks(s) && Linear(cells, s) && Owned(s)
  }

  // A machine at rest: nobody in a test-and-set, no cell claimed, histories empty.
  ghost predicate AtRest(s: State) {
    && s.phase == Idle && s.other == Away && s.lock == Nobody && !s.held
    && s.log == [] && s.calls == [] && s.results == [] && s.mine == {} && s.theirs == {}
  }

  predicate Atomic(s: State) {
    s.locking && s.exchange
  }

  lemma LocksKept(s: State, x: Action)
    requires Locks(s)
    ensures Locks(Step(s, x))
  {
  }

  lemma OwnedKept(s: State, x: Action)
    requires Locks(s) && Owned(s) && Atomic(s) && (s.phase.HasWritten? ==> s.oldValid)
    ensures Owned(Step(s, x))
  {
  }

  // An enabled step that reaches the memory adds its one event.
  function EventOf(s: State, x: Action): (e: Event)
    requires Enabled(s, x) && (x.Write? || x.Free? || x.TheirExchange? || x.TheirFree?)
  {
    match x
    case Write => Swap(Nd100, s.phase.cell, s.cells[s.phase.cell])
    case TheirExchange => Swap(Nd5000, s.other.cell, s.cells[s.other.cell])
    case Free(c, v) => Store(Nd100, c, v)
    case TheirFree(c, v) => Store(Nd5000, c, v)
  }

  // The history with one more event of the bank, as the simple machine has it.
  lemma EventLinear(cells: seq<word>, s: State, e: Event)
    requires Linear(cells, s) && e.cell < |cells| && (e.Swap? ==> e.found == s.cells[e.cell])
    ensures Faithful(cells, s.log + [e])
    ensures Replay(cells, s.log + [e]) == s.cells[e.cell := if e.Swap? then TAKEN else e.value]
    ensures Founds(s.log + [e], Nd100)
         == s.results + Pending(s) + (if e.Swap? && e.side == Nd100 then [e.found] else [])
  {
    LogExtends(cells, s.log, e);
    FoundsSnoc(s.log, e, Nd100);
  }

  lemma LinearWrite(cells: seq<word>, s: State)
    requires Locks(s) && Linear(cells, s) && Atomic(s) && Enabled(s, Write)
    ensures Linear(cells, Step(s, Write))
  {
    EventLinear(cells, s, EventOf(s, Write));
    assert Pending(s) == [];
    assert s.results + [] + [s.cells[s.phase.cell]] == s.results + [s.cells[s.phase.cell]];
  }

  lemma LinearTheirSwap(cells: seq<word>, s: State)
    requires Linear(cells, s) && Enabled(s, TheirExchange)
    ensures Linear(cells, Step(s, TheirExchange))
  {
    EventLinear(cells, s, EventOf(s, TheirExchange));
    assert s.results + Pending(s) + [] == s.results + Pending(s);
  }

  lemma LinearFree(cells: seq<word>, s: State, x: Action)
    requires Linear(cells, s) && Enabled(s, x) && (x.Free? || x.TheirFree?)
    ensures Linear(cells, Step(s, x))
  {
    EventLinear(cells, s, EventOf(s, x));
    assert s.results + Pending(s) + [] == s.results + Pending(s);
  }

  lemma LinearAccess(cells: seq<word>, s: State, x: Action)
    requires Locks(s) && Linear(cells, s) && Atomic(s)
    requires Enabled(s, x) && (x.Write? || x.Free? || x.TheirExchange? || x.TheirFree?)
    ensures Linear(cells, Step(s, x))
  {
    match x
    case Write => LinearWrite(cells, s);
    case TheirExchange => LinearTheirSwap(cells, s);
    case Free(_, _) => LinearFree(cells, s, x);
    case TheirFree(_, _) => LinearFree(cells, s, x);
  }

  lemma LinearKept(cells: seq<word>, s: State, x: Action)
    requires Locks(s) && Linear(cells, s) && Atomic(s)
    ensures Linear(cells, Step(s, x))
  {
    if Enabled(s, x) && (x.Write? || x.Free? || x.TheirExchange? || x.TheirFree?) {
      LinearAccess(cells, s, x);
    } else {
      assert Step(s, x).log == s.log && Step(s, x).cells == s.cells;
    }
  }

  lemma StepKeeps(cells: seq<word>, s: State, x: Action)
    requires Inv(cells, s) && Atomic(s)
    ensures Inv(cells, Step(s, x)) && Atomic(Step(s, x))
  {
    LocksKept(s, x);
    LinearKept(cells, s, x);
    OwnedKept(s, x);
  }

  lemma {:induction false} RunKeeps(cells: seq<word>, s: State, xs: seq<Action>)
    requires Inv(cells, s) && Atomic(s)
    ensures Inv(cells, Run(s, xs)) && Atomic(Run(s, xs))
    decreases |xs|
  {
    if xs != [] {
      StepKeeps(cells, s, xs[0]);
      RunKeeps(cells, Step(s, xs[0]), xs[1..]);
    }
  }

  // ---- Main results ----

  // Over every interleaving the accesses behave like a sequence of indivisible events: the
  // cells are those of the simple machine, every swap found the word its own -1 replaced, and
  // the words the ND-100 returned in A are exactly the words its swaps found, one each.
  lemma RunsLinearize(s: State, xs: seq<Action>)
    requires AtRest(s) && Atomic(s)
    ensures var r := Run(s, xs);
            && Faithful(s.cells, r.log) && r.cells == Replay(s.cells, r.log)
            && (r.phase.Idle? ==> r.results == Founds(r.log, Nd100))
  {
    RunKeeps(s.cells, s, xs);
  }

  // At most one side believes it owns a cell, and a cell that is owned is marked taken.
  lemma MutualExclusion(s: State, xs: seq<Action>)
    requires AtRest(s) && Atomic(s)
    ensures var r := Run(s, xs);
            r.mine !! r.theirs && (forall c :: c in r.mine + r.theirs ==> c < |r.cells| && r.cells[c] == 0xFFFF)
  {
    RunKeeps(s.cells, s, xs);
  }

  // Lock and unlock calls alternate, beginning with a lock, and the lock is the ND-100's only
  // inside the instruction: after it, trapped or not, the lock has been given back.
  lemma LockDiscipline(s: State, xs: seq<Action>)
    requires AtRest(s)
    ensures var r := Run(s, xs);
            Alternates(r.calls) && (r.phase.Idle? ==> |r.calls| % 2 == 0 && !r.held && r.lock != Held(Nd100))
  {
    RunLocks(s, xs);
  }

  lemma {:induction false} RunLocks(s: State, xs: seq<Action>)
    requires Locks(s)
    ensures Locks(Run(s, xs))
    decreases |xs|
  {
    if xs != [] {
      LocksKept(s, xs[0]);
      RunLocks(Step(s, xs[0]), xs[1..]);
    }
  }

  // The events of a log between two positions leave a cell alone.
  ghost predicate Untouched(log: seq<Event>, i: nat, j: nat, c: nat)
    requires i <= j <= |log|
  {
    forall k :: i <= k < j ==> log[k].cell != c
  }

  lemma {:induction false} UntouchedKeeps(cells: seq<word>, log: seq<Event>, i: nat, j: nat, c: nat)
    requires i <= j <= |log| && c < |cells| && Untouched(log, i, j, c)
    ensures Replay(cells, log[..j])[c] == Replay(cells, log[..i])[c]
    decreases j - i
  {
    if i < j {
      assert log[..j][..j - 1] == log[..j - 1];
      UntouchedKeeps(cells, log, i, j - 1, c);
    }
  }

  // In a faithful history a stored word stays until the next event of its cell.
  lemma StoredUntilNext(cells: seq<word>, log: seq<Event>, i: nat, j: nat)
    requires Faithful(cells, log) && i < j <= |log| && log[i].Store? && log[i].cell < |cells|
    requires Untouched(log, i + 1, j, log[i].cell)
    ensures Replay(cells, log[..j])[log[i].cell] == log[i].value
    ensures j < |log| && log[j].Swap? && log[j].cell == log[i].cell ==> log[j].found == log[i].value
  {
    assert log[..i + 1][..i] == log[..i];
    UntouchedKeeps(cells, log, i + 1, j, log[i].cell);
    if j < |log| && log[j].Swap? {
      assert FoundAt(cells, log, j);
    }
  }

  // No release is lost: the word a release stored is still in the cell, or the first
  // test-and-set of the cell after it found exactly that word.
  lemma NoReleaseLost(s: State, xs: seq<Action>, i: nat, j: nat)
    requires AtRest(s) && Atomic(s)
    requires i < j <= |Run(s, xs).log| && Run(s, xs).log[i].Store? && Run(s, xs).log[i].cell < |s.cells|
    requires Untouched(Run(s, xs).log, i + 1, j, Run(s, xs).log[i].cell)
    ensures var r := Run(s, xs);
            var e := r.log[i];
            && |r.cells| == |s.cells|
            && (j == |r.log| ==> r.cells[e.cell] == e.value)
            && (j < |r.log| && r.log[j].Swap? && r.log[j].cell == e.cell ==> r.log[j].found == e.value)
  {
    var r := Run(s, xs);
    RunKeeps(s.cells, s, xs);
    StoredUntilNext(s.cells, r.log, i, j);
    assert r.log[..|r.log|] == r.log;
  }

  // Without the lock functions or without the exchange the pair is not atomic: the other side's
  // release falls between the read and the write, and the cell stays taken with no owner.
  lemma PlainPairLosesRelease(s: State, c: nat, v: word)
    requires !Atomic(s) && c < |s.cells| && v != TAKEN
    requires s.phase == Idle && s.other == Away && s.lock == Nobody && !s.held
    requires s.mine == {} && s.theirs == {c} && s.cells[c] == TAKEN
    ensures var r := Run(s, [Begin(c), Read, TheirFree(c, v)] + [Write, Take, End]);
            && |r.cells| == |s.cells| && r.cells[c] == TAKEN && r.mine == {} && r.theirs == {}
            && r.phase == Idle && r.other == Away && r.lock == Nobody
  {
    RunConcat(s, [Begin(c), Read, TheirFree(c, v)], [Write, Take, End]);
    ReleaseAfterRead(s, c, v);
    StoreOverRelease(Run(s, [Begin(c), Read, TheirFree(c, v)]), c);
  }

  lemma RunThree(s: State, x: Action, y: Action, z: Action)
    ensures Run(s, [x, y, z]) == Step(Step(Step(s, x), y), z)
  {
    assert [x, y, z][1..] == [y, z] && [y, z][1..] == [z] && [z][1..] == [];
    var s1 := Step(s, x);
    var s2 := Step(s1, y);
    assert Run(s1, [y, z]) == Run(s2, [z]);
    assert Run(s2, [z]) == Run(Step(s2, z), []);
  }

  lemma ReleaseAfterRead(s: State, c: nat, v: word)
    requires !Atomic(s) && c < |s.cells| && v != TAKEN
    requires s.phase == Idle && s.other == Away && s.lock == Nobody && !s.held
    requires s.mine == {} && s.theirs == {c} && s.cells[c] == TAKEN
    ensures var r := Run(s, [Begin(c), Read, TheirFree(c, v)]);
            && r.phase == HasRead(c) && r.other == Away && r.a == TAKEN && !r.oldValid && |r.cells| == |s.cells|
            && r.mine == {} && r.theirs == {} && !(r.held && r.exchange) && (r.held || r.lock == Nobody)
  {
    RunThree(s, Begin(c), Read, TheirFree(c, v));
    var s1 := Step(s, Begin(c));
    assert s1.phase == Begun(c) && s1.cells == s.cells;
    var s2 := Step(s1, Read);
    assert s2.phase == HasRead(c) && s2.a == TAKEN;
  }

  lemma StoreOverRelease(s: State, c: nat)
    requires c < |s.cells| && s.phase == HasRead(c) && s.other == Away && s.a == TAKEN && !s.oldValid
    requires s.mine == {} && s.theirs == {} && !(s.held && s.exchange) && (s.held || s.lock == Nobody)
    ensures var r := Run(s, [Write, Take, End]);
            && |r.cells| == |s.cells| && r.cells[c] == TAKEN && r.mine == {} && r.theirs == {}
            && r.phase == Idle && r.other == Away && r.lock == Nobody
  {
    RunThree(s, Write, Take, End);
    var s1 := Step(s, Write);
    assert s1.phase == HasWritten(c) && s1.cells == s.cells[c := TAKEN] && !s1.oldValid;
    var s2 := Step(s1, Take);
    assert s2.phase == HasTaken(c) && s2.a == TAKEN;
  }

  // ---- The instruction ----

  datatype Trap = NoTrap | AtRead | AtWrite

  predicate Theirs(x: Action) {
    x.TheirLock? || x.TheirExchange? || x.TheirUnlock? || x.TheirFree?
  }

  // The steps of one instruction, with what the other CPU does before each of them.
  function Schedule(c: nat, trap: Trap, env: seq<seq<Action>>): seq<Action>
    requires |env| == 4
  {
    if trap == AtRead then [Begin(c)] + env[0] + [Fault]
    else if trap == AtWrite then [Begin(c)] + env[0] + [Read] + env[1] + [Fault]
    else [Begin(c)] + env[0] + [Read] + env[1] + [Write] + env[2] + [Take] + env[3] + [End]
  }

  lemma RunSnoc(s: State, xs: seq<Action>, x: Action)
    ensures Run(s, xs + [x]) == Step(Run(s, xs), x)
  {
    RunConcat(s, xs, [x]);
    assert [x][1..] == [];
    assert Run(Run(s, xs), [x]) == Run(Step(Run(s, xs), x), []);
  }

  lemma TheirsLeaves(s: State, x: Action)
    requires Theirs(x)
    ensures var r := Step(s, x);
            && r.phase == s.phase && r.held == s.held && r.taken == s.taken && r.oldValid == s.oldValid && r.a == s.a
            && |r.cells| == |s.cells| && r.locking == s.locking && r.exchange == s.exchange
            && r.calls == s.calls && r.results == s.results && r.mine == s.mine
  {
  }

  // The other CPU cannot move the ND-100 through its instruction.
  lemma {:induction false} TheirsLeaveInstruction(s: State, xs: seq<Action>)
    requires forall x :: x in xs ==> Theirs(x)
    ensures var r := Run(s, xs);
            && r.phase == s.phase && r.held == s.held && r.taken == s.taken && r.oldValid == s.oldValid && r.a == s.a
            && |r.cells| == |s.cells| && r.locking == s.locking && r.exchange == s.exchange
            && r.calls == s.calls && r.results == s.results && r.mine == s.mine
    decreases |xs|
  {
    if xs != [] {
      assert xs[0] in xs;
      TheirsLeaves(s, xs[0]);
      TheirsLeaveInstruction(Step(s, xs[0]), xs[1..]);
    }
  }

  class Machine {
    const locking: bool
    const exchange: bool
    var cells: seq<word>
    var lock: Holder
    var held: bool
    var taken: word
    var oldValid: bool
    var a: word
    var phase: Phase
    var other: Other
    var log: seq<Event>
    var calls: seq<Call>
    var results: seq<word>
    var mine: set<nat>
    var theirs: set<nat>

    function Now(): State
      reads this
    {
      State(locking, exchange, cells, lock, held, taken, oldValid, a, phase, other, log, calls, results, mine, theirs)
    }

    constructor (locking: bool, exchange: bool, cells: seq<word>)
      ensures AtRest(Now()) && this.cells == cells && this.locking == locking && this.exchange == exchange
    {
      this.locking, this.exchange, this.cells := locking, exchange, cells;
      lock, held, taken, oldValid, a := Nobody, false, 0, false, 0;
      phase, other, log, calls, results, mine, theirs := Idle, Away, [], [], [], {}, {};
    }

    method TheirStep(x: Action)
      requires Theirs(x)
      modifies this
      ensures Now() == Step(old(Now()), x)
    {
      var r := Step(Now(), x);
      TheirsLeaves(Now(), x);
      cells, lock, other, log, theirs := r.cells, r.lock, r.other, r.log, r.theirs;
    }

    // The second CPU runs for a while; the ND-100's own bookkeeping stays as it is.
    method Interfere(xs: seq<Action>)
      requires forall x :: x in xs ==> Theirs(x)
      modifies this
      ensures Now() == Run(old(Now()), xs)
    {
      var i := 0;
      while i < |xs|
        invariant i <= |xs| && Run(Now(), xs[i..]) == Run(old(Now()), xs)
      {
        assert xs[i] in xs;
        assert xs[i..][0] == xs[i] && xs[i..][1..] == xs[i + 1..];
        TheirStep(xs[i]);
        i := i + 1;
      }
    }

    // Returns when the lock is free; the wait itself is the other CPU's time.
    method TsetLockBegin(cell: nat)
      requires Enabled(Now(), Begin(cell))
      modifies this
      ensures Now() == Step(old(Now()), Begin(cell))
    {
      oldValid := false;
      if locking && !held {
        lock, calls := Held(Nd100), calls + [Lock];
        held := true;
      }
      phase := Begun(cell);
    }

    method TsetLockEnd()
      modifies this
      ensures Now() == LockEnd(old(Now()))
    {
      if held {
        held := false;
        lock, calls := Nobody, calls + [Unlock];
      }
    }

    method WriteSharedWord(cell: nat, value: word)
      requires cell < |cells|
      modifies this
      ensures Now() == WriteWord(old(Now()), cell, value)
    {
      if held && exchange {
        taken, log := cells[cell], log + [Swap(Nd100, cell, cells[cell])];
        cells := cells[cell := value];
        oldValid := true;
        return;
      }
      cells, log := cells[cell := value], log + [Store(Nd100, cell, value)];
    }

    method TakeOld() returns (valid: bool, word': word)
      modifies this
      ensures valid == old(oldValid) && (valid ==> word' == old(taken))
      ensures Now() == old(Now()).(oldValid := false)
    {
      valid, word' := oldValid, taken;
      oldValid := false;
    }

    // The other CPU's time inside the instruction.
    method Wait(xs: seq<Action>, ghost s: State, ghost steps: seq<Action>)
      requires Now() == Run(s, steps) && (forall x :: x in xs ==> Theirs(x))
      modifies this
      ensures Now() == Run(s, steps + xs)
      ensures phase == old(phase) && held == old(held) && |cells| == |old(cells)|
    {
      TheirsLeaveInstruction(Now(), xs);
      RunConcat(s, steps, xs);
      Interfere(xs);
    }

    method ReadHalf(ghost s: State, ghost steps: seq<Action>)
      requires Now() == Run(s, steps) && phase.Begun? && phase.cell < |cells|
      modifies this
      ensures Now() == Run(s, steps + [Read]) && phase == HasRead(old(phase).cell) && |cells| == |old(cells)|
    {
      RunSnoc(s, steps, Read);
      a, phase := cells[phase.cell], HasRead(phase.cell);
    }

    method WriteHalf(ghost s: State, ghost steps: seq<Action>)
      requires Now() == Run(s, steps) && phase.HasRead? && phase.cell < |cells|
      modifies this
      ensures Now() == Run(s, steps + [Write]) && phase == HasWritten(old(phase).cell) && |cells| == |old(cells)|
    {
      RunSnoc(s, steps, Write);
      WriteSharedWord(phase.cell, TAKEN);
      phase := HasWritten(phase.cell);
    }

    method TakeHalf(ghost s: State, ghost steps: seq<Action>)
      requires Now() == Run(s, steps) && phase.HasWritten?
      modifies this
      ensures Now() == Run(s, steps + [Take]) && phase == HasTaken(old(phase).cell) && |cells| == |old(cells)|
    {
      RunSnoc(s, steps, Take);
      var valid, found := TakeOld();
      if valid {
        a := found;
      }
      phase := HasTaken(phase.cell);
    }

    method Finish(ghost s: State, ghost steps: seq<Action>)
      requires Now() == Run(s, steps) && phase.HasTaken?
      modifies this
      ensures Now() == Run(s, steps + [End]) && phase == Idle && !held
    {
      RunSnoc(s, steps, End);
      TsetLockEnd();
      if a != TAKEN {
        mine := mine + {phase.cell};
      }
      phase, results := Idle, results + [a];
    }

    // The trap path gives the lock back before it leaves the instruction.
    method LeaveByTrap(ghost s: State, ghost steps: seq<Action>)
      requires Now() == Run(s, steps) && (phase.Begun? || phase.HasRead?)
      modifies this
      ensures Now() == Run(s, steps + [Fault]) && phase == Idle && !held
    {
      RunSnoc(s, steps, Fault);
      TsetLockEnd();
      phase := Idle;
    }

    // TSET and TSETP: the two differ in how the address is formed, and only the first can trap.
    method TestAndSet(cell: nat, trap: Trap, env: seq<seq<Action>>)
      requires phase == Idle && cell < |cells| && !held && (locking ==> lock == Nobody)
      requires |env| == 4 && (forall k, x :: 0 <= k < 4 && x in env[k] ==> Theirs(x))
      modifies this
      ensures Now() == Run(old(Now()), Schedule(cell, trap, env))
      ensures phase == Idle && !held
    {
      ghost var s := Now();
      ghost var begun := [Begin(cell)] + env[0];
      RunSnoc(s, [], Begin(cell));
      TsetLockBegin(cell);
      Wait(env[0], s, [Begin(cell)]);
      if trap == AtRead {
        LeaveByTrap(s, begun);
        return;
      }
      ReadHalf(s, begun);
      ghost var read := begun + [Read] + env[1];
      Wait(env[1], s, begun + [Read]);
      if trap == AtWrite {
        LeaveByTrap(s, read);
        return;
      }
      WriteHalf(s, read);
      Wait(env[2], s, read + [Write]);
      TakeHalf(s, read + [Write] + env[2]);
      Wait(env[3], s, read + [Write] + env[2] + [Take]);
      Finish(s, read + [Write] + env[2] + [Take] + env[3]);
    }
  }
}
