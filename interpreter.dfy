/** The interpreter loop of the counter machine, with its cache of whole
    runs keyed by start index and table. */
module Interpreter {
  import opened Table
  import opened Semantics

  /** The copy-back loop of a subroutine call: writes slots 0 .. count-1 of
      `result` into `t` one slot at a time. */
  method CopyBack(t: seq<int>, result: seq<int>, count: nat) returns (r: Result<seq<int>>)
    ensures r == CopiedBack(t, result, count)
  {
    var table := t;
    for i := 0 to count
      invariant CopiedBack(t, result, i) == Ok(table)
    {
      if i >= |result| {
        return Err(IndexError);
      }
      var updated := UpdateEntry(table, i, result[i]);
      if updated.Err? {
        return updated;
      }
      table := updated.value;
    }
    return Ok(table);
  }

  /** A machine running one program, remembering the final table of every
      run it has completed, keyed by where the run started. */
  class Machine {
    const program: seq<Register>
    var memo: map<(nat, seq<int>), seq<int>>

    /** Every remembered table is the one the run from its key halts with. */
    ghost predicate Valid()
      reads this
    {
      forall key | key in memo :: Completes(program, key.0, key.1, Halted(memo[key]))
    }

    constructor (program: seq<Register>)
      ensures this.program == program && memo == map[] && Valid()
    {
      this.program := program;
      memo := map[];
    }

    /** Runs the program from `index` on `table`, with at most `fuel`
        instructions per nesting level; an answer in the cache is returned
        without running. The result is what the run completes with, and it
        is the fuel-bounded run whenever that one finishes. */
    method ProcessRegisters(index: nat, table: seq<int>, fuel: nat) returns (o: Outcome)
      requires Valid()
      modifies this
      ensures Valid()
      ensures o != OutOfFuel ==> Completes(program, index, table, o)
      ensures Run(program, index, table, fuel) != OutOfFuel ==> o == Run(program, index, table, fuel)
      ensures o.Halted? ==> (index, table) in memo && memo[(index, table)] == o.table
      decreases fuel
    {
      if (index, table) in memo {
        o := Halted(memo[(index, table)]);
        if Run(program, index, table, fuel) != OutOfFuel {
          CompletesIsRun(program, index, table, o, fuel);
        }
        return;
      }
      var idx: nat, tbl: seq<int>, gas: nat := index, table, fuel;
      while true
        invariant Valid()
        invariant gas <= fuel
        invariant Run(program, index, table, fuel) != OutOfFuel ==>
          Run(program, idx, tbl, gas) == Run(program, index, table, fuel)
        invariant forall out :: Completes(program, idx, tbl, out) ==> Completes(program, index, table, out)
        decreases gas
      {
        if idx >= |program| {
          HaltedCompletes(program, idx, tbl);
          o := Halted(tbl);
          break;
        }
        if gas == 0 {
          o := OutOfFuel;
          break;
        }
        var reg := program[idx];
        if reg.instruction == SUM {
          if reg.entry >= |tbl| {
            CrashCompletes(program, idx, tbl, IndexError);
            o := Crashed(IndexError);
            break;
          }
          var next := UpdateEntry(tbl, reg.entry, tbl[reg.entry] + 1).value;
          GotoCompletes(program, idx, tbl, reg.leftNext, next);
          idx, tbl := reg.leftNext, next;
        } else if reg.instruction == SUB {
          if reg.entry >= |tbl| {
            CrashCompletes(program, idx, tbl, IndexError);
            o := Crashed(IndexError);
            break;
          }
          if tbl[reg.entry] != 0 {
            var next := UpdateEntry(tbl, reg.entry, tbl[reg.entry] - 1).value;
            GotoCompletes(program, idx, tbl, reg.leftNext, next);
            idx, tbl := reg.leftNext, next;
          } else {
            GotoCompletes(program, idx, tbl, reg.rightNext, tbl);
            idx := reg.rightNext;
          }
        } else {
          if reg.entry > 0 {
            var nested := ProcessRegisters(reg.leftNext, tbl, gas - 1);
            if nested.OutOfFuel? {
              o := OutOfFuel;
              break;
            }
            if nested.Crashed? {
              CallCrashCompletes(program, idx, tbl, reg.leftNext, reg.entry, reg.rightNext, nested.error);
              o := nested;
              break;
            }
            CallCompletes(program, idx, tbl, reg.leftNext, reg.entry, reg.rightNext, nested.table);
            var copied := CopyBack(tbl, nested.table, reg.entry);
            if copied.Err? {
              o := Crashed(copied.error);
              break;
            }
            tbl := copied.value;
          } else {
            GotoCompletes(program, idx, tbl, reg.rightNext, tbl);
          }
          idx := reg.rightNext;
        }
        gas := gas - 1;
      }
      if o.Halted? {
        memo := memo[(index, table) := o.table];
      }
    }
  }
}
