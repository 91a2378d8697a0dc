/** The register table of the counter machine: an immutable sequence of
    integer slots, built once and then replaced slot by slot. */
module Table {

  /** Number of slots in a freshly built table. */
  const TableSize: nat := 26

  /** The two ways a run can fail: reading a slot past the end of a table
      (Python's IndexError) and the range assertion guarding a slot update
      (Python's AssertionError). */
  datatype Error = IndexError | AssertionFailed

  datatype Result<T> = Ok(value: T) | Err(error: Error)

  /** The table a run starts from: `initial` in slot 0, zero everywhere else. */
  function NewTable(initial: int): (t: seq<int>)
    ensures |t| == TableSize
    ensures t[0] == initial
    ensures forall j | 1 <= j < |t| :: t[j] == 0
  {
    [initial] + seq(TableSize - 1, _ => 0)
  }

  /** A copy of `t` with slot `entry` replaced by `value`; an index past the
      end fails the range assertion. */
  function UpdateEntry(t: seq<int>, entry: nat, value: int): (r: Result<seq<int>>)
    ensures r.Ok? <==> entry < |t|
    ensures r.Err? ==> r.error == AssertionFailed
    ensures r.Ok? ==> |r.value| == |t| && r.value[entry] == value
    ensures r.Ok? ==> forall j | 0 <= j < |t| && j != entry :: r.value[j] == t[j]
  {
    if entry < |t| then Ok(t[..entry] + [value] + t[entry + 1..]) else Err(AssertionFailed)
  }

  /** The table after the copy-back loop of a subroutine call has written
      slots 0 .. count-1 of `result` into `t`, one `UpdateEntry` at a time.
      Slot i of `result` is read before slot i of `t` is updated, so a short
      `result` fails with IndexError and a short `t` with AssertionFailed,
      whichever runs out first. */
  function CopiedBack(t: seq<int>, result: seq<int>, count: nat): (r: Result<seq<int>>)
    ensures r.Ok? <==> count <= |result| && count <= |t|
    ensures r.Err? ==> r.error == (if |result| <= |t| then IndexError else AssertionFailed)
    ensures r.Ok? ==> |r.value| == |t|
  {
    if count == 0 then Ok(t)
    else
      match CopiedBack(t, result, count - 1)
      case Err(e) => Err(e)
      case Ok(u) =>
        if count - 1 >= |result| then Err(IndexError)
        else UpdateEntry(u, count - 1, result[count - 1])
  }

  /** A successful copy-back holds the first `count` slots of `result`
      followed by the remaining slots of `t`. */
  lemma {:induction false} CopiedBackSlots(t: seq<int>, result: seq<int>, count: nat)
    requires CopiedBack(t, result, count).Ok?
    ensures forall j | 0 <= j < |t| ::
      CopiedBack(t, result, count).value[j] == if j < count then result[j] else t[j]
  {
    if count > 0 {
      CopiedBackSlots(t, result, count - 1);
    }
  }
}
