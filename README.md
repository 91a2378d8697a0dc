# Counter machine interpreter

A Dafny model of the register-machine interpreter in `counter.py`. A program
is a sequence of `Register` instructions. Each instruction has an opcode, a
slot operand `entry` and two jump targets, `left_next` and `right_next`. The
machine state is an instruction index and an immutable table of integer
slots. The opcodes are:

- SUM (0) adds one to a slot.
- SUB (1) takes one from a nonzero slot, or branches when the slot is zero.
- Every other opcode is a subroutine call. It runs the same program from
  `left_next` on the current table, copies the first `entry` slots of the
  nested result back, and continues at `right_next`.

A run ends once the index passes the end of the program. Slots are
unbounded integers, as Python's are, and SUB tests for a nonzero slot
rather than a positive one. Non-negativity is proved separately, for runs
that start from a table without negative slots.

The project has three modules:

- `Table` (`table.dfy`) holds the table operations. `NewTable` builds a
  fresh 26-slot table and `UpdateEntry` replaces one slot. `CopiedBack` is
  the copy-back loop of a call, as a function. Python's two failures are
  modelled as values of `Error`: `IndexError` and `AssertionFailed`.
- `Semantics` (`semantics.dfy`) gives the meaning of a program:
  - `Step` is one instruction.
  - `Run` is a run with a step budget (`fuel`), because a run need not halt.
  - `Completes(p, i, t, o)` holds when the run from `(i, t)` ends with
    outcome `o` for some budget.
  - The lemmas state determinism, one big-step rule per kind of
    instruction, length and non-negativity preservation, and freedom from
    index errors for programs whose operands are in range.
- `Interpreter` (`interpreter.dfy`) is the imperative interpreter:
  - `Machine.ProcessRegisters` mirrors the source's `while True` loop. A
    call is a recursive method call.
  - `CopyBack` mirrors the `for` loop that writes the nested result back.
  - The class keeps the memo cache of whole runs as a `map` keyed by
    `(index, table)`. Its invariant says that every cached table is the
    table the run from that key halts with.

The model is proved in two directions. `ProcessRegisters` returns exactly
what `Run` returns whenever `Run` finishes within the given budget, and
every outcome it returns, including one taken from the cache, is the
outcome of a completed run.

## Model

| member | source | states |
|---|---|---|
| `Table.NewTable` | counter.py:13-14 | the fresh table has 26 slots, slot 0 holds the initial value and every other slot is 0 |
| `Table.UpdateEntry` | counter.py:16-20 | it succeeds exactly when the slot index is below the table length and otherwise fails the assertion; on success the length is kept, the slot holds the new value and every other slot is unchanged |
| `Table.CopiedBack` | counter.py:45-46 | the copy-back of `count` slots succeeds exactly when `count` fits in both tables; otherwise it fails with IndexError when the nested result is the shorter table and with AssertionFailed when the caller's table is; on success the length is kept |
| `Table.CopiedBackSlots` | counter.py:45-46 | after a successful copy-back, slots below `count` hold the nested result and the remaining slots hold the caller's table |
| `Interpreter.CopyBack` | counter.py:45-46 | the slot-by-slot loop returns exactly the copy-back result, errors included |
| `Semantics.StepEffect` | counter.py:28-48 | SUM adds one to slot `entry`, changes nothing else and goes to `left_next`; SUB on a nonzero slot subtracts one and goes to `left_next`, and on a zero slot leaves the table and goes to `right_next`; either fails with IndexError when `entry` is past the table; any other opcode with `entry` 0 is a plain jump to `right_next`, and with `entry` > 0 it is a call of `left_next` that copies `entry` slots and resumes at `right_next` |
| `Semantics.Run` | counter.py:22-48 | a run that halts returns a table of the same length as its input |
| `Semantics.Return` | counter.py:41-48 | continuing after a nested run keeps the table's length |
| `Semantics.FuelMonotone` | counter.py:24-48 | a larger step budget never changes an outcome that a smaller budget reached |
| `Semantics.Deterministic` | counter.py:22-23 | a run from a given index and table completes with at most one outcome, which is what makes caching runs by their arguments sound |
| `Semantics.CompletesIsRun` | counter.py:22-48 | a completed outcome equals the bounded run for every budget large enough to finish it |
| `Semantics.HaltedCompletes` | counter.py:25-26 | from an index at or past the program's end, the only outcome is the unchanged table |
| `Semantics.CrashCompletes` | counter.py:30-36 | an instruction that fails ends the run with its error |
| `Semantics.GotoCompletes` | counter.py:30-39 | a SUM, SUB or zero-count call step has exactly the outcomes of the state it moves to |
| `Semantics.CallCrashCompletes` | counter.py:41-43 | a call whose nested run fails ends the caller with the same error |
| `Semantics.CallCompletes` | counter.py:41-48 | a call whose nested run halts has exactly the outcomes of the copied-back table resumed at `right_next`, or fails with the copy-back's error |
| `Semantics.RunKeepsNonNegative` | counter.py:34-39 | a run from a table without negative slots halts with a table without negative slots |
| `Semantics.InRangeNeverCrashes` | counter.py:28-48 | a program whose SUM and SUB operands name existing slots, and whose calls copy back at most the table's length, never fails |
| `Semantics.FreshRunShape` | counter.py:13-14 | a run from instruction 0 on a fresh table with a non-negative value halts with 26 non-negative slots |
| `Interpreter.Machine.constructor` | counter.py:22 | a new machine has an empty cache, which satisfies the cache invariant |
| `Interpreter.Machine.ProcessRegisters` | counter.py:22-48 | keeps the cache invariant; any outcome other than running out of budget is a completed outcome of the run; the result equals the bounded run whenever that run finishes; a halted result is cached under the start index and table |

## Left out

- The instruction fields `entry`, `left_next` and `right_next` and the run's start index are natural numbers. Python's negative indexing of tuples is not modelled, and the program literal uses no negative operand.
- The lru_cache on `update_entry` is not modelled. The function is pure, so caching it changes no result; `UpdateEntry` is modelled uncached.
- The lru_cache on `process_registers` is modelled as an unbounded map. Its size limit and least-recently-used eviction are not modelled; they affect memory, not results.
- Termination of arbitrary programs is not guaranteed. Every run is bounded by a step budget per nesting level: `Run` and `ProcessRegisters` return `OutOfFuel` when the budget runs out. This outcome has no counterpart in the source, which would keep running.
- Host stack exhaustion from deep recursion at counter.py:43 is not modelled.
- The hard-coded 119-instruction program is data, not logic. Its output is not modelled.
- The command-line entry point is I/O and is not modelled: reading `sys.argv`, parsing with `int`, and printing the result.
