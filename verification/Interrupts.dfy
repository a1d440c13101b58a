/**
 The interrupt system: pending and enabled levels, internal interrupts, the instructions that
 change them, and the level check between instructions. A 16-bit register is the set of the
 numbers of its one bits.
 */
module Interrupts {

  type bits = b: set<nat> | forall i :: i in b ==> i < 16

  type level = l: nat | l < 16

  // Device interrupts may set bits 10 to 13 and 15.
  const DEVICE_LEVELS: bits := {10, 11, 12, 13, 15}

  // Internal interrupt numbers.
  const Z_ERROR: level := 5
  const PRIVILEGED: level := 6

  // The bit of a status word that is the error indicator, and the ring bit that tells 2 and 3.
  const Z_BIT: level := 3
  const RING_BIT: level := 1

  // errors: the levels whose error indicator Z is set; system: those whose ring is 2 or 3;
  // stopped: WAIT has stopped the processor.
  datatype State = State(
    pid: bits, pie: bits, iid: bits, iie: bits, iic: nat, pk: level,
    pil: level, pvl: level, ioni: bool, poni: bool, chkit: bool, errors: bits, system: bits, stopped: bool)

  // The highest number below n in a set, or 0.
  function HighestBelow(b: bits, n: nat): nat {
    if n == 0 then 0 else if n - 1 in b then n - 1 else HighestBelow(b, n - 1)
  }

  function Highest(b: bits): (l: level)
  {
    HighestBounded(b, 16);
    HighestBelow(b, 16)
  }

  lemma {:induction false} HighestBounded(b: bits, n: nat)
    ensures n > 0 ==> HighestBelow(b, n) < n
    ensures n == 0 ==> HighestBelow(b, n) == 0
  {
    if n > 0 {
      HighestBounded(b, n - 1);
    }
  }

  lemma {:induction false} HighestBelowIs(b: bits, n: nat)
    ensures (forall i :: i in b && i < n ==> i <= HighestBelow(b, n))
    ensures (exists i :: i in b && i < n) ==> HighestBelow(b, n) in b
  {
    if n > 0 {
      HighestBelowIs(b, n - 1);
      if n - 1 !in b {
        assert forall i :: i in b && i < n ==> i < n - 1;
      }
    }
  }

  lemma {:induction false} HighestIn(b: bits, n: nat)
    ensures HighestBelow(b, n) == 0 || HighestBelow(b, n) in b
  {
    if n > 0 {
      HighestIn(b, n - 1);
    }
  }

  // The level that should run: the highest one both pending and enabled, or 0.
  function Due(s: State): level {
    Highest(s.pie * s.pid)
  }

  lemma DueIs(s: State)
    ensures forall i :: i in s.pie && i in s.pid ==> i <= Due(s)
    ensures (s.pie * s.pid != {} ==> Due(s) in s.pie && Due(s) in s.pid)
    ensures s.pie * s.pid == {} ==> Due(s) == 0
  {
    HighestBelowIs(s.pie * s.pid, 16);
    forall i | i in s.pie && i in s.pid
      ensures i <= Due(s)
    {
      assert i in s.pie * s.pid;
    }
    if s.pie * s.pid != {} {
      var i :| i in s.pie * s.pid;
      assert i < 16;
    } else {
      EmptyHighest(16);
    }
  }

  lemma {:induction false} EmptyHighest(n: nat)
    ensures HighestBelow({}, n) == 0
  {
    if n > 0 {
      EmptyHighest(n - 1);
    }
  }

  // The priority code: the highest enabled internal interrupt among 0 to 10.
  function Code(s: State): nat {
    HighestBelow(s.iid * s.iie, 11)
  }

  // ---- The operations ----

  function Recalc(s: State): State {
    var s1 := if s.pil in s.errors then s.(iid := s.iid + {Z_ERROR}) else s;
    if s1.iid * s1.iie != {} then s1.(pid := s1.pid + {14}, iic := Code(s1), chkit := true) else s1
  }

  // A level made pending; level 14 carries the number of the internal interrupt, and is pending
  // only when one is enabled.
  function Pend(s: State, lvl: level, sub: bits): State {
    if lvl == 14 then
      var s1 := s.(iid := s.iid + sub);
      if s1.iid * s1.iie != {} then s1.(pid := s1.pid + {14}) else s1
    else s.(pid := s.pid + {lvl})
  }

  // An interrupt of a level.
  function Raise(s: State, lvl: level, sub: bits): State {
    Recalc(Pend(s, lvl, sub))
  }

  function Device(s: State, lines: bits): State {
    var pid := s.pid + lines * DEVICE_LEVELS;
    s.(pid := pid, chkit := s.chkit || pid != s.pid)
  }

  function SetPil(s: State, l: level): State {
    if l == s.pil then s else s.(pvl := s.pil, pil := l)
  }

  // The check between instructions.
  function Check(s: State): State {
    if !s.chkit then s
    else
      var s1 := Recalc(s.(chkit := false));
      if !s1.ioni then s1 else SetPil(s1.(pk := Due(s1)), Due(s1))
  }

  // A privileged instruction runs with paging off or in a system ring; otherwise it raises an
  // internal interrupt and does nothing else.
  predicate Privileged(s: State) {
    !s.poni || s.pil in s.system
  }

  datatype Register = Pid | Pie | Iie | Sts | Pcr

  // WriteStatus is IRW of STS and LRB, for any level. LowerRing is a fetch from a page of ring 0 or
  // 1 that takes the running level's ring down from 3.
  datatype Action =
    | DeviceInterrupt(lines: bits) | InternalInterrupt(sub: bits)
    | Mcl(reg: Register, a: bits) | Mst(reg: Register, a: bits) | Trr(reg: Register, a: bits)
    | WriteStatus(lvl: level, a: bits) | LowerRing
    | TraIic | Wait | Ion | Iof | Pion | Piof | Pon | Pof | SetError(on: bool) | LevelCheck

  // The level whose paging control register bits 3 to 6 of A select.
  function PcrLevel(a: bits): level {
    (if 3 in a then 1 else 0) + (if 4 in a then 2 else 0) + (if 5 in a then 4 else 0) + (if 6 in a then 8 else 0)
  }

  // The set with l in it or not.
  function Flag(b: bits, l: level, on: bool): bits {
    if on then b + {l} else b - {l}
  }

  // MCL and MST know only STS, PID and PIE. A write of STS asks for no check.
  function Execute(s: State, x: Action): State {
    match x
    case Mcl(Pid, a) => s.(pid := s.pid - a, chkit := true)
    case Mcl(Pie, a) => s.(pie := s.pie - a, chkit := true)
    case Mst(Pid, a) => s.(pid := s.pid + a, chkit := true)
    case Mst(Pie, a) => s.(pie := s.pie + a, chkit := true)
    case Trr(Pid, a) => s.(pid := a, chkit := true)
    case Trr(Pie, a) => s.(pie := a, chkit := true)
    case Trr(Iie, a) => s.(iie := a, chkit := true)
    case Mcl(Sts, a) => s.(errors := Flag(s.errors, s.pil, s.pil in s.errors && Z_BIT !in a))
    case Mst(Sts, a) => s.(errors := Flag(s.errors, s.pil, s.pil in s.errors || Z_BIT in a))
    case Trr(Sts, a) => s.(errors := Flag(s.errors, s.pil, Z_BIT in a))
    case Trr(Pcr, a) => s.(system := Flag(s.system, PcrLevel(a), RING_BIT in a))
    case WriteStatus(lvl, a) => s.(errors := Flag(s.errors, lvl, Z_BIT in a))
    case TraIic => s.(iic := 0, iid := {}, chkit := true)
    case Wait =>
      if !s.ioni then s.(stopped := true)
      else if s.pil == 0 then s
      else s.(pid := s.pid - {s.pil}, chkit := true)
    case Iof => s.(ioni := false)
    case Piof => s.(ioni := false, poni := false)
    case Pof => s.(poni := false)
    case _ => s
  }

  function Step(s: State, x: Action): State {
    match x
    case DeviceInterrupt(lines) => Device(s, lines)
    case InternalInterrupt(sub) => Raise(s, 14, sub)
    case Ion => s.(ioni := true, chkit := true)
    case Pion => s.(ioni := true, poni := true, chkit := true)
    case Pon => s.(poni := true)
    case SetError(on) =>
      if on then s.(errors := s.errors + {s.pil}, chkit := true) else s.(errors := s.errors - {s.pil})
    case LevelCheck => Check(s)
    case LowerRing => s.(system := s.system - {s.pil})
    case _ => if Privileged(s) then Execute(s, x) else Raise(s, 14, {PRIVILEGED})
  }

  function Run(s: State, xs: seq<Action>): State
    decreases |xs|
  {
    if xs == [] then s else Run(Step(s, xs[0]), xs[1..])
  }

  // ---- Invariants ----

  // With interrupts on and no check outstanding, the running level is the one that should run.
  ghost predicate Settled(s: State) {
    s.ioni && !s.chkit ==> s.pil == Due(s)
  }

  // An enabled internal interrupt keeps a check outstanding until its handler reads the code.
  ghost predicate Watched(s: State) {
    s.iid * s.iie != {} ==> s.chkit
  }

  ghost predicate Inv(s: State) {
    Settled(s) && Watched(s)
  }

  lemma RecalcKeeps(s: State)
    ensures var r := Recalc(s);
            && (r.iid * r.iie != {} ==> r.chkit && 14 in r.pid) && (s.chkit ==> r.chkit)
            && r.pil == s.pil && r.pie == s.pie && r.ioni == s.ioni && r.iie == s.iie && r.errors == s.errors
            && (r.pid == s.pid || (r.pid == s.pid + {14} && r.chkit))
            && (r.chkit == (s.chkit || r.iid * r.iie != {}))
            && (if r.iid * r.iie != {} then r.iic == Code(r) else r.iic == s.iic)
  {
  }

  lemma RaiseKeeps(s: State, sub: bits)
    requires Inv(s)
    ensures Inv(Raise(s, 14, sub))
  {
    var s1 := s.(iid := s.iid + sub);
    var s2 := if s1.iid * s1.iie != {} then s1.(pid := s1.pid + {14}) else s1;
    RecalcKeeps(s2);
    if s1.iid * s1.iie != {} {
      var i :| i in s1.iid * s1.iie;
      assert i in Recalc(s2).iid * Recalc(s2).iie;
    }
  }

  lemma CheckKeeps(s: State)
    requires Inv(s)
    ensures Inv(Check(s))
  {
    RecalcKeeps(s.(chkit := false));
  }

  lemma ExecuteKeeps(s: State, x: Action)
    requires Inv(s)
    ensures Inv(Execute(s, x))
  {
  }

  lemma StepKeeps(s: State, x: Action)
    requires Inv(s)
    ensures Inv(Step(s, x))
  {
    ExecuteKeeps(s, x);
    match x
    case InternalInterrupt(sub) => RaiseKeeps(s, sub);
    case LevelCheck => CheckKeeps(s);
    case DeviceInterrupt(lines) => assert Device(s, lines).chkit || Device(s, lines).pid == s.pid;
    case Mcl(_, _) => RaiseKeeps(s, {PRIVILEGED});
    case Mst(_, _) => RaiseKeeps(s, {PRIVILEGED});
    case Trr(_, _) => RaiseKeeps(s, {PRIVILEGED});
    case WriteStatus(_, _) => RaiseKeeps(s, {PRIVILEGED});
    case TraIic => RaiseKeeps(s, {PRIVILEGED});
    case Wait => RaiseKeeps(s, {PRIVILEGED});
    case Iof => RaiseKeeps(s, {PRIVILEGED});
    case Piof => RaiseKeeps(s, {PRIVILEGED});
    case Pof => RaiseKeeps(s, {PRIVILEGED});
    case _ =>
  }

  // Over every run from a state that meets it - interrupts off and nothing raised, for one - the
  // invariant holds.
  lemma {:induction false} RunKeeps(s: State, xs: seq<Action>)
    requires Inv(s)
    ensures Inv(Run(s, xs))
    decreases |xs|
  {
    if xs != [] {
      StepKeeps(s, xs[0]);
      RunKeeps(Step(s, xs[0]), xs[1..]);
    }
  }

  lemma RunSettled(s: State, xs: seq<Action>)
    requires !s.ioni && s.iid == {}
    ensures var r := Run(s, xs); r.ioni && !r.chkit ==> r.pil == Due(r)
  {
    RunKeeps(s, xs);
  }

  // ---- What a check delivers ----

  // After a check with interrupts on, the running level is the highest pending and enabled one,
  // whether or not another check is outstanding; the level left is remembered.
  lemma CheckDelivers(s: State)
    requires Inv(s) && s.ioni
    ensures var r := Check(s);
            && r.pil == Due(r)
            && r.pvl == (if r.pil != s.pil then s.pil else s.pvl) && (s.chkit ==> r.pk == r.pil)
            && (r.chkit <==> r.iid * r.iie != {})
  {
    RecalcKeeps(s.(chkit := false));
  }

  lemma CheckSound(s: State)
    ensures Inv(s) ==> Inv(Check(s)) && (Check(s).ioni ==> Check(s).pil == Due(Check(s)))
    ensures !s.ioni ==> Check(s).pil == s.pil
  {
    if Inv(s) {
      CheckKeeps(s);
      RecalcKeeps(s.(chkit := false));
      if s.ioni {
        CheckDelivers(s);
      }
    }
  }

  // No enabled internal interrupt is missed: the check that sees it makes level 14 pending, and
  // runs level 14 or above if level 14 is enabled.
  lemma InternalReachesLevel14(s: State)
    requires Inv(s) && s.ioni && s.iid * s.iie != {}
    ensures var r := Check(s); 14 in r.pid && (14 in r.pie ==> r.pil >= 14)
  {
    var c := s.(chkit := false);
    RecalcKeeps(c);
    var i :| i in s.iid * s.iie;
    assert i in Recalc(c).iid * Recalc(c).iie;
    DueIs(Check(s));
  }

  // Of the sixteen lines only 10 to 13 and 15 become pending.
  lemma DeviceLines(s: State, lines: bits, i: nat)
    ensures i in Device(s, lines).pid <==> i in s.pid || (i in lines && (10 <= i <= 13 || i == 15))
  {
  }

  // An enabled one reaches its level, or one above it, at the next check.
  lemma DeviceReachesLevel(s: State, lines: bits, i: nat)
    requires Inv(s) && s.ioni && i in lines && i in s.pie && (10 <= i <= 13 || i == 15)
    ensures Check(Step(s, DeviceInterrupt(lines))).pil >= i
  {
    var r := Step(s, DeviceInterrupt(lines));
    DeviceLines(s, lines, i);
    StepKeeps(s, DeviceInterrupt(lines));
    CheckPends(r, i);
    CheckSound(r);
    if !r.chkit {
      DueIs(r);
    }
    DueIs(Check(r));
  }

  // A check loses no pending level, enables and disables none, and does not turn interrupts off.
  lemma CheckPends(s: State, i: nat)
    requires i in s.pid
    ensures i in Check(s).pid && Check(s).pie == s.pie && Check(s).ioni == s.ioni
  {
    RecalcKeeps(s.(chkit := false));
  }

  // The instructions that need privilege.
  predicate NeedsPrivilege(x: Action) {
    x.Mcl? || x.Mst? || x.Trr? || x.WriteStatus? || x.TraIic? || x.Wait? || x.Iof? || x.Piof? || x.Pof?
  }

  // Without it they raise internal interrupt 6 and do nothing else; enabled, it reaches level 14 at
  // the next check.
  lemma RefusedReachesLevel14(s: State, x: Action)
    requires Inv(s) && NeedsPrivilege(x) && s.poni && s.pil !in s.system
    ensures var r := Step(s, x);
            && r.iid >= s.iid + {6} && r.pid <= s.pid + {14} && s.pid <= r.pid
            && r == s.(iid := r.iid, pid := r.pid, iic := r.iic, chkit := r.chkit)
            && (s.ioni && 6 in s.iie && 14 in s.pie ==> Check(r).pil >= 14)
  {
    var r := Step(s, x);
    RefusedIs(s, x);
    RaiseAdds(s, {PRIVILEGED});
    RaiseKeeps(s, {PRIVILEGED});
    if s.ioni && 6 in s.iie && 14 in s.pie {
      assert 6 in r.iid * r.iie;
      InternalReachesLevel14(r);
    }
  }

  lemma RefusedIs(s: State, x: Action)
    requires NeedsPrivilege(x) && !Privileged(s)
    ensures Step(s, x) == Raise(s, 14, {PRIVILEGED})
  {
  }

  lemma RaiseAdds(s: State, sub: bits)
    ensures var r := Raise(s, 14, sub);
            && r.iid >= s.iid + sub && r.pid <= s.pid + {14} && s.pid <= r.pid
            && r == s.(iid := r.iid, pid := r.pid, iic := r.iic, chkit := r.chkit)
  {
  }

  // ---- What the register instructions do, bit by bit ----

  lemma RegisterBits(s: State, a: bits, i: nat)
    requires !s.poni || s.pil in s.system
    ensures i in Step(s, Mcl(Pid, a)).pid <==> i in s.pid && i !in a
    ensures i in Step(s, Mcl(Pie, a)).pie <==> i in s.pie && i !in a
    ensures i in Step(s, Mst(Pid, a)).pid <==> i in s.pid || i in a
    ensures i in Step(s, Mst(Pie, a)).pie <==> i in s.pie || i in a
    ensures i in Step(s, Trr(Pid, a)).pid <==> i in a
    ensures i in Step(s, Trr(Pie, a)).pie <==> i in a
    ensures i in Step(s, Trr(Iie, a)).iie <==> i in a
  {
  }

  // The error indicator is bit 3 of the status word; only the level whose word is written is
  // affected.
  lemma StatusBits(s: State, a: bits, l: nat)
    requires !s.poni || s.pil in s.system
    ensures l in Step(s, Mcl(Sts, a)).errors <==> l in s.errors && !(l == s.pil && 3 in a)
    ensures l in Step(s, Mst(Sts, a)).errors <==> l in s.errors || (l == s.pil && 3 in a)
    ensures l in Step(s, Trr(Sts, a)).errors <==> if l == s.pil then 3 in a else l in s.errors
  {
  }

  lemma IndicatorBits(s: State, a: bits, lvl: level, on: bool, l: nat)
    requires !s.poni || s.pil in s.system
    ensures l in Step(s, WriteStatus(lvl, a)).errors <==> if l == lvl then 3 in a else l in s.errors
    ensures l in Step(s, SetError(on)).errors <==> if l == s.pil then on else l in s.errors
  {
  }

  // ION and PION need no privilege and ask for a check; PON asks for none.
  lemma SwitchesOn(s: State)
    ensures var r := Step(s, Ion); r.ioni && r.poni == s.poni && r.chkit
    ensures var r := Step(s, Pion); r.ioni && r.poni && r.chkit
    ensures var r := Step(s, Pon); r.ioni == s.ioni && r.poni && r.chkit == s.chkit
  {
  }

  // IOF, PIOF and POF, which need privilege, ask for no check.
  lemma SwitchesOff(s: State)
    requires !s.poni || s.pil in s.system
    ensures var r := Step(s, Iof); !r.ioni && r.poni == s.poni && r.chkit == s.chkit
    ensures var r := Step(s, Piof); !r.ioni && !r.poni && r.chkit == s.chkit
    ensures var r := Step(s, Pof); r.ioni == s.ioni && !r.poni && r.chkit == s.chkit
  {
  }

  // WAIT with interrupts off stops the processor and does nothing else; on level 0 it does nothing.
  lemma WaitStops(s: State)
    requires !s.poni || s.pil in s.system
    ensures !s.ioni ==> Step(s, Wait) == s.(stopped := true)
    ensures s.ioni && s.pil == 0 ==> Step(s, Wait) == s
    ensures s.ioni && s.pil > 0 ==> Step(s, Wait).stopped == s.stopped && Step(s, Wait).chkit
  {
  }

  // TRR PCR writes the ring of the level n in bits 3 to 6 of A, and no other: 2 or 3 by its bit 1.
  lemma RingWritten(s: State, a: bits, n: level, l: nat)
    requires !s.poni || s.pil in s.system
    requires (3 in a <==> n % 2 == 1) && (4 in a <==> n / 2 % 2 == 1)
    requires (5 in a <==> n / 4 % 2 == 1) && (6 in a <==> n / 8 == 1)
    ensures l in Step(s, Trr(Pcr, a)).system <==> if l == n then 1 in a else l in s.system
  {
  }

  // The error indicator of the running level is an internal interrupt of the next check.
  lemma ErrorReachesLevel14(s: State)
    requires Inv(s) && s.ioni && 5 in s.iie && 14 in s.pie
    ensures Check(Step(s, SetError(true))).pil >= 14
  {
    var e := Step(s, SetError(true));
    var c := e.(chkit := false);
    RecalcKeeps(c);
    assert Z_ERROR in Recalc(c).iid * Recalc(c).iie;
    DueIs(Check(e));
  }

  // The writes of a whole status word.
  predicate WritesStatus(x: Action) {
    x.WriteStatus? || ((x.Mcl? || x.Mst? || x.Trr?) && x.reg == Sts)
  }

  // An error indicator set by such a write asks for no check: the level check that follows raises
  // the interrupt exactly when a check is outstanding anyway and the indicator is the running
  // level's, or the interrupt was raised before.
  lemma StatusErrorWaits(s: State, x: Action)
    requires WritesStatus(x) && Privileged(s)
    ensures var r := Step(s, x);
            && r.chkit == s.chkit
            && (5 in Check(r).iid <==> 5 in s.iid || (s.chkit && s.pil in r.errors))
  {
    StatusOnly(s, x);
    CheckSees(Step(s, x));
  }

  lemma StatusOnly(s: State, x: Action)
    requires WritesStatus(x) && Privileged(s)
    ensures Step(s, x) == s.(errors := Step(s, x).errors)
  {
  }

  lemma CheckSees(s: State)
    ensures Z_ERROR in Check(s).iid <==> Z_ERROR in s.iid || (s.chkit && s.pil in s.errors)
  {
  }

  // So with the interrupt enabled, an indicator set in the running level's own status reaches level
  // 14 at the next level check exactly when a check is outstanding or such a level runs already.
  lemma StatusErrorReachesIff(s: State, x: Action)
    requires Inv(s) && s.ioni && 5 in s.iie && 14 in s.pie && Privileged(s)
    requires WritesStatus(x) && s.pil in Step(s, x).errors
    ensures Check(Step(s, x)).pil >= 14 <==> s.chkit || s.pil >= 14
  {
    var r := Step(s, x);
    if s.chkit {
      RecalcKeeps(r.(chkit := false));
      assert Z_ERROR in Recalc(r.(chkit := false)).iid * Recalc(r.(chkit := false)).iie;
      DueIs(Check(r));
    }
  }

  // A level that waits gives way: with nothing internal pending, the next check runs the highest
  // of the levels below it that are pending and enabled.
  lemma WaitDescends(s: State)
    requires Inv(s) && s.ioni && !s.chkit && s.pil > 0 && s.pil !in s.errors && Privileged(s)
    ensures var r := Check(Step(s, Wait));
            && r.pil == Highest(s.pie * s.pid - {s.pil}) < s.pil
            && r.pvl == s.pil && r.pid == s.pid - {s.pil}
  {
    var w := Step(s, Wait);
    assert Recalc(w.(chkit := false)) == w.(chkit := false);
    assert w.pie * w.pid == s.pie * s.pid - {s.pil};
    DueIs(s);
    DueIs(w);
  }

  // Reading the code answers with the highest enabled internal interrupt and clears them all, so
  // the next check no longer sees any but the error indicator of the running level.
  lemma TraIicClears(s: State)
    requires Privileged(s)
    ensures var r := Step(s, TraIic);
            r.iid == {} && r.iic == 0 && r.chkit && (s.pil !in s.errors && s.ioni ==> !Check(r).chkit)
  {
    var r := Step(s, TraIic);
    assert r.iid * r.iie == {};
  }

  lemma CodeIs(s: State)
    ensures forall i :: i in s.iid && i in s.iie && i <= 10 ==> i <= Code(s)
    ensures (exists i :: i in s.iid && i in s.iie && i <= 10) ==> Code(s) in s.iid && Code(s) in s.iie
    ensures Code(s) <= 10 && ((forall i :: i in s.iid && i in s.iie ==> i > 10) ==> Code(s) == 0)
  {
    HighestBelowIs(s.iid * s.iie, 11);
    HighestBounded(s.iid * s.iie, 11);
    HighestIn(s.iid * s.iie, 11);
    forall i | i in s.iid && i in s.iie && i <= 10
      ensures i <= Code(s)
    {
      assert i in s.iid * s.iie;
    }
    if i :| i in s.iid && i in s.iie && i <= 10 {
      assert i in s.iid * s.iie && i < 11;
    }
  }

  // Raised on a level other than 14, an interrupt sets no check of its own: a settled machine
  // stays settled exactly when something internal asks for the check or the level need not run.
  lemma OtherLevelSettledIff(s: State, lvl: level)
    requires Inv(s) && s.ioni && !s.chkit && lvl != 14
    ensures Settled(Raise(s, lvl, {}))
            <==> (s.pil in s.errors && Z_ERROR in s.iie) || lvl !in s.pie || lvl <= s.pil
  {
    var s1 := s.(pid := s.pid + {lvl});
    var r := Raise(s, lvl, {});
    RecalcKeeps(s1);
    if s.pil in s.errors && Z_ERROR in s.iie {
      assert Z_ERROR in r.iid * r.iie;
    } else {
      assert r.iid * r.iie == {};
      assert !r.chkit && r.pid == s1.pid;
      DueIs(s);
      DueIs(r);
    }
  }

  // ---- The processor's own steps ----

  class Cpu {
    var pid: bits
    var pie: bits
    var iid: bits
    var iie: bits
    var iic: nat
    var pk: level
    var pil: level
    var pvl: level
    var ioni: bool
    var poni: bool
    var chkit: bool
    var errors: bits
    var stopped: bool
    var system: bits

    function Now(): State
      reads this
    {
      State(pid, pie, iid, iie, iic, pk, pil, pvl, ioni, poni, chkit, errors, system, stopped)
    }

    constructor (system: bits)
      ensures Now() == State({}, {}, {}, {}, 0, 0, 0, 0, false, false, false, {}, system, false)
    {
      this.system := system;
      pid, pie, iid, iie, errors := {}, {}, {}, {}, {};
      iic, pk, pil, pvl := 0, 0, 0, 0;
      ioni, poni, chkit, stopped := false, false, false, false;
    }

    // Search downward from bit 10.
    method CalcIic() returns (code: nat)
      ensures code == Code(Now())
    {
      var pending: bits := iid * iie;
      if pending == {} {
        EmptyHighest(11);
        return 0;
      }
      var i := 11;
      while i > 0
        invariant HighestBelow(pending, i) == Code(Now()) && i <= 11
      {
        i := i - 1;
        if i in pending {
          return i;
        }
      }
      return 0;
    }

    // Search downward from level 15.
    method CalcPk()
      modifies `pk
      ensures pk == Due(Now())
    {
      pk := 0;
      var pending: bits := pie * pid;
      if pending == {} {
        EmptyHighest(16);
        return;
      }
      var lvl := 16;
      while lvl > 0
        invariant HighestBelow(pending, lvl) == Due(Now()) && lvl <= 16 && pk == 0
      {
        lvl := lvl - 1;
        if lvl in pending {
          pk := lvl;
          return;
        }
      }
    }

    method RecalcInternalInterruptBits()
      modifies `iid, `pid, `iic, `chkit
      ensures Now() == Recalc(old(Now()))
    {
      if pil in errors {
        iid := iid + {Z_ERROR};
      }
      if iid * iie != {} {
        ghost var s1 := Now();
        var code := CalcIic();
        pid := pid + {14};
        iic := code;
        chkit := true;
      }
    }

    method Interrupt(lvl: level, sub: bits)
      modifies `iid, `pid, `iic, `chkit
      ensures Now() == Raise(old(Now()), lvl, sub)
    {
      MakePending(lvl, sub);
      RecalcInternalInterruptBits();
    }

    method MakePending(lvl: level, sub: bits)
      modifies `iid, `pid
      ensures Now() == Pend(old(Now()), lvl, sub)
    {
      if lvl == 14 {
        iid := iid + sub;
        if iid * iie != {} {
          pid := pid + {14};
        }
      } else {
        pid := pid + {lvl};
      }
    }

    method DeviceInterrupts(lines: bits)
      modifies `pid, `chkit
      ensures Now() == Device(old(Now()), lines)
    {
      var valid: bits, before := lines * DEVICE_LEVELS, pid;
      pid := pid - valid;
      pid := pid + valid;
      assert pid == before + valid;
      if before != pid {
        chkit := true;
      }
    }

    method SetLevel(l: level)
      modifies `pvl, `pil
      ensures Now() == SetPil(old(Now()), l)
    {
      if l == pil {
        return;
      }
      pvl := pil;
      pil := l;
    }

    // The check between instructions. With interrupts on and a sound machine it leaves the
    // running level the highest one pending and enabled.
    method CheckAndSwitch() returns (switched: bool)
      modifies this
      ensures Now() == Check(old(Now()))
      ensures switched <==> pil != old(pil)
      ensures Inv(old(Now())) ==> Inv(Now()) && (ioni ==> pil == Due(Now()))
    {
      CheckSound(Now());
      if chkit {
        chkit := false;
        RecalcInternalInterruptBits();
        if !ioni {
          return false;
        }
        CalcPk();
        if pk != pil {
          SetLevel(pk);
          return true;
        }
      }
      return false;
    }

    // Whether a privileged instruction may run; if not, the interrupt is raised.
    method CheckPriv() returns (ok: bool)
      modifies `iid, `pid, `iic, `chkit
      ensures ok == Privileged(old(Now()))
      ensures Now() == if ok then old(Now()) else Raise(old(Now()), 14, {PRIVILEGED})
    {
      if !poni || pil in system {
        return true;
      }
      Interrupt(14, {PRIVILEGED});
      return false;
    }

    method MaskedClear(reg: Register, a: bits)
      modifies `pid, `pie, `iid, `iic, `chkit, `errors
      ensures Now() == Step(old(Now()), Mcl(reg, a))
    {
      var ok := CheckPriv();
      if !ok {
        return;
      }
      ClearBits(reg, a);
    }

    method ClearBits(reg: Register, a: bits)
      modifies `pid, `pie, `chkit, `errors
      ensures Now() == Execute(old(Now()), Mcl(reg, a))
    {
      if reg == Pid {
        pid, chkit := pid - a, true;
      } else if reg == Pie {
        pie, chkit := pie - a, true;
      } else if reg == Sts && Z_BIT in a {
        errors := errors - {pil};
      }
    }

    method MaskedSet(reg: Register, a: bits)
      modifies `pid, `pie, `iid, `iic, `chkit, `errors
      ensures Now() == Step(old(Now()), Mst(reg, a))
    {
      var ok := CheckPriv();
      if !ok {
        return;
      }
      SetBits(reg, a);
    }

    method SetBits(reg: Register, a: bits)
      modifies `pid, `pie, `chkit, `errors
      ensures Now() == Execute(old(Now()), Mst(reg, a))
    {
      if reg == Pid {
        pid, chkit := pid + a, true;
      } else if reg == Pie {
        pie, chkit := pie + a, true;
      } else if reg == Sts && Z_BIT in a {
        assert pil < 16;
        errors := errors + {pil};
      }
    }

    method TransferToRegister(reg: Register, a: bits)
      modifies `pid, `pie, `iid, `iie, `iic, `chkit, `errors, `system
      ensures Now() == Step(old(Now()), Trr(reg, a))
    {
      var ok := CheckPriv();
      if !ok {
        return;
      }
      Transfer(reg, a);
    }

    // The transfer itself.
    method Transfer(reg: Register, a: bits)
      modifies `pid, `pie, `iie, `chkit, `errors, `system
      ensures Now() == Execute(old(Now()), Trr(reg, a))
    {
      match reg
      case Iie => iie, chkit := a, true;
      case Pid => pid, chkit := a, true;
      case Pie => pie, chkit := a, true;
      case Sts => SetStatus(pil, a);
      case Pcr =>
        var lvl := PcrLevel(a);
        system := Flag(system, lvl, RING_BIT in a);
    }

    // IRW of STS, and the status word of LRB.
    method WriteLevelStatus(lvl: level, a: bits)
      modifies this
      ensures Now() == Step(old(Now()), WriteStatus(lvl, a))
    {
      var ok := CheckPriv();
      if ok {
        SetStatus(lvl, a);
      }
    }

    method SetStatus(lvl: level, a: bits)
      modifies `errors
      ensures errors == Flag(old(errors), lvl, Z_BIT in a)
    {
      errors := if Z_BIT in a then errors + {lvl} else errors - {lvl};
    }

    // Reads the priority code into A and clears the internal interrupts.
    method TransferIic() returns (ok: bool, a: nat)
      modifies this
      ensures Now() == Step(old(Now()), TraIic) && ok == Privileged(old(Now()))
      ensures ok ==> a == Code(old(Now()))
    {
      a := 0;
      ok := CheckPriv();
      if !ok {
        return;
      }
      a := CalcIic();
      iic, iid := 0, {};
      chkit := true;
    }

    // WAIT stops the processor with interrupts off, and else gives up the running level.
    method GiveUp()
      modifies this
      ensures Now() == Step(old(Now()), Wait)
    {
      var ok := CheckPriv();
      if !ok {
        return;
      }
      if !ioni {
        stopped := true;
        return;
      }
      if pil == 0 {
        return;
      }
      pid := pid - {pil};
      chkit := true;
    }

    method InterruptsOn(paging: bool)
      modifies this
      ensures Now() == Step(old(Now()), if paging then Pion else Ion)
    {
      ioni := true;
      if paging {
        poni := true;
      }
      chkit := true;
    }

    method InterruptsOff(paging: bool)
      modifies this
      ensures Now() == Step(old(Now()), if paging then Piof else Iof)
    {
      var ok := CheckPriv();
      if !ok {
        return;
      }
      ioni := false;
      if paging {
        poni := false;
      }
    }

    // PON and POF leave the interrupt system as it is, and ask for no check.
    method SetPaging(on: bool)
      modifies `poni, `iid, `pid, `iic, `chkit
      ensures Now() == Step(old(Now()), if on then Pon else Pof)
    {
      if on {
        poni := true;
        return;
      }
      var ok := CheckPriv();
      if ok {
        poni := false;
      }
    }

    // The error indicator of the running level.
    method SetErrorIndicator(on: bool)
      modifies this
      ensures Now() == Step(old(Now()), SetError(on))
    {
      if on {
        assert pil < 16;
        errors := errors + {pil};
        chkit := true;
      } else {
        errors := errors - {pil};
      }
    }
  }
}
