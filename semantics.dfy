/** The meaning of a counter-machine program: one instruction step, a run
    bounded by a step budget, and the outcome a run completes with. */
module Semantics {
  import opened Table

  /** Opcodes; any opcode other than SUM and SUB is a subroutine call. */
  const SUM: int := 0
  const SUB: int := 1
  const RECURSIVE: int := 2

  /** One instruction. `number` is informational only. */
  datatype Register = Register(number: int, instruction: int, entry: nat, leftNext: nat, rightNext: nat)

  /** What executing one instruction does to the machine, before any
      nested run: go on at `next` with `table`, call the subroutine at
      `callee` and copy `count` slots of its result back before going on at
      `resume`, or fail. */
  datatype Transition =
    | Goto(next: nat, table: seq<int>)
    | Call(callee: nat, count: nat, resume: nat)
    | Crash(error: Error)

  /** The final state of a run with a step budget. */
  datatype Outcome = Halted(table: seq<int>) | Crashed(error: Error) | OutOfFuel

  /** The transition of one instruction on table `t`. */
  function Step(r: Register, t: seq<int>): Transition
  {
    if r.instruction == SUM then
      if r.entry < |t| then Goto(r.leftNext, UpdateEntry(t, r.entry, t[r.entry] + 1).value)
      else Crash(IndexError)
    else if r.instruction == SUB then
      if r.entry >= |t| then Crash(IndexError)
      else if t[r.entry] != 0 then Goto(r.leftNext, UpdateEntry(t, r.entry, t[r.entry] - 1).value)
      else Goto(r.rightNext, t)
    else if r.entry > 0 then Call(r.leftNext, r.entry, r.rightNext)
    else Goto(r.rightNext, t)
  }

  /** What one instruction does: SUM adds one to its slot, SUB takes one
      from a nonzero slot or branches on zero, and every other opcode is a
      call, or a plain jump when it copies no slot back. */
  lemma StepEffect(r: Register, t: seq<int>)
    // SUM: one more in slot `entry`, nothing else changes, continue at leftNext
    ensures var s := Step(r, t);
      r.instruction == SUM ==>
        if r.entry < |t| then
          s.Goto? && s.next == r.leftNext && |s.table| == |t| && s.table[r.entry] == t[r.entry] + 1 &&
          forall j | 0 <= j < |t| && j != r.entry :: s.table[j] == t[j]
        else s == Crash(IndexError)
    // SUB: one less in a nonzero slot and continue at leftNext; a zero slot branches to rightNext
    ensures var s := Step(r, t);
      r.instruction == SUB ==>
        if r.entry >= |t| then s == Crash(IndexError)
        else if t[r.entry] == 0 then s == Goto(r.rightNext, t)
        else
          s.Goto? && s.next == r.leftNext && |s.table| == |t| && s.table[r.entry] == t[r.entry] - 1 &&
          forall j | 0 <= j < |t| && j != r.entry :: s.table[j] == t[j]
    // any other opcode: a call, or a plain jump to rightNext when no slot is copied back
    ensures r.instruction != SUM && r.instruction != SUB ==>
      Step(r, t) == if r.entry == 0 then Goto(r.rightNext, t) else Call(r.leftNext, r.entry, r.rightNext)
  {
  }

  /** Runs `p` from instruction `i` on table `t`, executing at most `fuel`
      instructions at this level; a nested call gets the budget left after
      the calling instruction. A completed run keeps the table's length. */
  function Run(p: seq<Register>, i: nat, t: seq<int>, fuel: nat): (o: Outcome)
    ensures o.Halted? ==> |o.table| == |t|
    decreases fuel, 0
  {
    if i >= |p| then Halted(t)
    else if fuel == 0 then OutOfFuel
    else
      match Step(p[i], t)
      case Goto(next, u) => Run(p, next, u, fuel - 1)
      case Crash(e) => Crashed(e)
      case Call(callee, count, resume) => Return(p, t, count, resume, Run(p, callee, t, fuel - 1), fuel - 1)
  }

  /** How the caller goes on once the nested run of a call has ended with
      `nested`: copy `count` slots of its table back into `t` and run on
      from `resume`; a failed or unfinished nested run ends the caller the same way. */
  function Return(p: seq<Register>, t: seq<int>, count: nat, resume: nat, nested: Outcome, fuel: nat): (o: Outcome)
    ensures o.Halted? ==> |o.table| == |t|
    decreases fuel, 1
  {
    match nested
    case Halted(result) =>
      (match CopiedBack(t, result, count)
       case Ok(u) => Run(p, resume, u, fuel)
       case Err(e) => Crashed(e))
    case Crashed(e) => Crashed(e)
    case OutOfFuel => OutOfFuel
  }

  /** The run of `p` from `i` on `t` ends, given enough steps, with `o`. */
  ghost predicate Completes(p: seq<Register>, i: nat, t: seq<int>, o: Outcome) {
    o != OutOfFuel && exists fuel: nat :: Run(p, i, t, fuel) == o
  }

  /** A larger step budget never changes an outcome that a smaller one reached. */
  lemma {:induction false} FuelMonotone(p: seq<Register>, i: nat, t: seq<int>, fuel: nat, more: nat)
    requires fuel <= more && Run(p, i, t, fuel) != OutOfFuel
    ensures Run(p, i, t, more) == Run(p, i, t, fuel)
    decreases fuel
  {
    if i < |p| {
      match Step(p[i], t)
      case Goto(next, u) =>
        FuelMonotone(p, next, u, fuel - 1, more - 1);
      case Crash(e) =>
      case Call(callee, count, resume) =>
        var nested := Run(p, callee, t, fuel - 1);
        FuelMonotone(p, callee, t, fuel - 1, more - 1);
        assert Run(p, callee, t, more - 1) == nested;
        if nested.Halted? && CopiedBack(t, nested.table, count).Ok? {
          FuelMonotone(p, resume, CopiedBack(t, nested.table, count).value, fuel - 1, more - 1);
        }
    }
  }

  /** Runs are deterministic: a run from (i, t) completes with at most one
      outcome. This is what makes caching whole runs by (i, t) sound. */
  lemma Deterministic(p: seq<Register>, i: nat, t: seq<int>, o1: Outcome, o2: Outcome)
    requires Completes(p, i, t, o1) && Completes(p, i, t, o2)
    ensures o1 == o2
  {
    var f1: nat :| Run(p, i, t, f1) == o1;
    var f2: nat :| Run(p, i, t, f2) == o2;
    if f1 <= f2 {
      FuelMonotone(p, i, t, f1, f2);
    } else {
      FuelMonotone(p, i, t, f2, f1);
    }
  }

  /** Every run that ends with any budget ends the same way with a budget
      that suffices, and a completed run is the run with any such budget. */
  lemma CompletesIsRun(p: seq<Register>, i: nat, t: seq<int>, o: Outcome, fuel: nat)
    requires Completes(p, i, t, o) && Run(p, i, t, fuel) != OutOfFuel
    ensures Run(p, i, t, fuel) == o
  {
    Deterministic(p, i, t, o, Run(p, i, t, fuel));
  }

  /** Past the last instruction the machine has halted, and the table is returned unchanged. */
  lemma HaltedCompletes(p: seq<Register>, i: nat, t: seq<int>)
    requires i >= |p|
    ensures forall o :: Completes(p, i, t, o) <==> o == Halted(t)
  {
    assert Run(p, i, t, 0) == Halted(t);
  }

  /** An instruction that fails ends the run with its error. */
  lemma CrashCompletes(p: seq<Register>, i: nat, t: seq<int>, e: Error)
    requires i < |p| && Step(p[i], t) == Crash(e)
    ensures forall o :: Completes(p, i, t, o) <==> o == Crashed(e)
  {
    assert Run(p, i, t, 1) == Crashed(e);
    forall o | Completes(p, i, t, o) ensures o == Crashed(e) {
      Deterministic(p, i, t, o, Crashed(e));
    }
  }

  /** A plain step leads to exactly the outcomes of the state it moves to. */
  lemma GotoCompletes(p: seq<Register>, i: nat, t: seq<int>, next: nat, u: seq<int>)
    requires i < |p| && Step(p[i], t) == Goto(next, u)
    ensures forall o :: Completes(p, i, t, o) <==> Completes(p, next, u, o)
  {
    forall o | Completes(p, i, t, o) ensures Completes(p, next, u, o) {
      var f: nat :| Run(p, i, t, f) == o;
      assert Run(p, next, u, f - 1) == o;
    }
    forall o | Completes(p, next, u, o) ensures Completes(p, i, t, o) {
      var f: nat :| Run(p, next, u, f) == o;
      assert Run(p, i, t, f + 1) == o;
    }
  }

  /** A call whose nested run fails fails the calling run with the same error. */
  lemma CallCrashCompletes(p: seq<Register>, i: nat, t: seq<int>, callee: nat, count: nat, resume: nat, e: Error)
    requires i < |p| && Step(p[i], t) == Call(callee, count, resume)
    requires Completes(p, callee, t, Crashed(e))
    ensures forall o :: Completes(p, i, t, o) <==> o == Crashed(e)
  {
    var fc: nat :| Run(p, callee, t, fc) == Crashed(e);
    assert Run(p, i, t, fc + 1) == Crashed(e);
    forall o | Completes(p, i, t, o) ensures o == Crashed(e) {
      Deterministic(p, i, t, o, Crashed(e));
    }
  }

  /** A call whose nested run halts with `result` leads to exactly the
      outcomes of the caller's table with the first `count` slots copied
      back, continued at `resume`; a failed copy-back ends the run. */
  lemma CallCompletes(p: seq<Register>, i: nat, t: seq<int>, callee: nat, count: nat, resume: nat, result: seq<int>)
    requires i < |p| && Step(p[i], t) == Call(callee, count, resume)
    requires Completes(p, callee, t, Halted(result))
    ensures CopiedBack(t, result, count).Ok? ==>
      forall o :: Completes(p, i, t, o) <==> Completes(p, resume, CopiedBack(t, result, count).value, o)
    ensures CopiedBack(t, result, count).Err? ==>
      forall o :: Completes(p, i, t, o) <==> o == Crashed(CopiedBack(t, result, count).error)
  {
    var fc: nat :| Run(p, callee, t, fc) == Halted(result);
    forall o | Completes(p, i, t, o)
      ensures CopiedBack(t, result, count).Ok? ==> Completes(p, resume, CopiedBack(t, result, count).value, o)
      ensures CopiedBack(t, result, count).Err? ==> o == Crashed(CopiedBack(t, result, count).error)
    {
      var f: nat :| Run(p, i, t, f) == o;
      assert f > 0;
      var nested := Run(p, callee, t, f - 1);
      assert o == Return(p, t, count, resume, nested, f - 1);
      CompletesIsRun(p, callee, t, Halted(result), f - 1);
      if CopiedBack(t, result, count).Ok? {
        assert Run(p, resume, CopiedBack(t, result, count).value, f - 1) == o;
      }
    }
    match CopiedBack(t, result, count)
    case Ok(u) =>
      forall o | Completes(p, resume, u, o) ensures Completes(p, i, t, o) {
        var fr: nat :| Run(p, resume, u, fr) == o;
        var f := if fc <= fr then fr else fc;
        FuelMonotone(p, callee, t, fc, f);
        FuelMonotone(p, resume, u, fr, f);
        assert Run(p, i, t, f + 1) == o;
      }
    case Err(e) =>
      assert Run(p, i, t, fc + 1) == Crashed(e);
  }

  ghost predicate NonNegative(t: seq<int>) {
    forall j | 0 <= j < |t| :: t[j] >= 0
  }

  /** Slots never go negative: SUB only decrements a nonzero slot, so a run
      from a table without negative slots halts with one without negative slots. */
  lemma {:induction false} RunKeepsNonNegative(p: seq<Register>, i: nat, t: seq<int>, fuel: nat)
    requires NonNegative(t) && Run(p, i, t, fuel).Halted?
    ensures NonNegative(Run(p, i, t, fuel).table)
    decreases fuel
  {
    if i < |p| {
      match Step(p[i], t)
      case Goto(next, u) =>
        RunKeepsNonNegative(p, next, u, fuel - 1);
      case Call(callee, count, resume) =>
        RunKeepsNonNegative(p, callee, t, fuel - 1);
        var result := Run(p, callee, t, fuel - 1).table;
        CopiedBackSlots(t, result, count);
        RunKeepsNonNegative(p, resume, CopiedBack(t, result, count).value, fuel - 1);
    }
  }

  /** Every slot operand is in range for a table of `size` slots: SUM and SUB
      name an existing slot and a call copies back at most `size` slots. */
  ghost predicate OperandsInRange(p: seq<Register>, size: nat) {
    forall k | 0 <= k < |p| ::
      p[k].entry <= size && (p[k].instruction == SUM || p[k].instruction == SUB ==> p[k].entry < size)
  }

  /** A program whose operands are in range for the table never fails. */
  lemma {:induction false} InRangeNeverCrashes(p: seq<Register>, i: nat, t: seq<int>, fuel: nat)
    requires OperandsInRange(p, |t|)
    ensures !Run(p, i, t, fuel).Crashed?
    decreases fuel
  {
    if i < |p| && fuel > 0 {
      match Step(p[i], t)
      case Goto(next, u) =>
        InRangeNeverCrashes(p, next, u, fuel - 1);
      case Call(callee, count, resume) =>
        InRangeNeverCrashes(p, callee, t, fuel - 1);
        if Run(p, callee, t, fuel - 1).Halted? {
          var result := Run(p, callee, t, fuel - 1).table;
          InRangeNeverCrashes(p, resume, CopiedBack(t, result, count).value, fuel - 1);
        }
    }
  }

  /** A run started the way the program's entry point starts it, at
      instruction 0 on a fresh table holding a non-negative value, halts
      with a 26-slot table without negative slots. */
  lemma FreshRunShape(p: seq<Register>, initial: int, fuel: nat)
    requires initial >= 0 && Run(p, 0, NewTable(initial), fuel).Halted?
    ensures |Run(p, 0, NewTable(initial), fuel).table| == TableSize
    ensures NonNegative(Run(p, 0, NewTable(initial), fuel).table)
  {
    RunKeepsNonNegative(p, 0, NewTable(initial), fuel);
  }
}
