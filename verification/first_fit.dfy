// `examples/allocator_design.rs`: a first-fit allocator of contiguous blocks over a
// tape of occupied flags. The search walks a window of `size` cells from its right
// end and, on meeting an occupied cell, moves the window to start just past it.

module FirstFit {
  import opened Wrappers

  /** The block `s .. s + size` lies inside the tape and every cell in it is free. */
  predicate FitsAt(tape: seq<bool>, s: nat, size: nat)
  {
    s + size <= |tape| && forall j :: s <= j < s + size ==> !tape[j]
  }

  /** The tape with the cells `s .. s + size` set to `flag` and every other cell kept. */
  function SetRange(tape: seq<bool>, s: nat, size: nat, flag: bool): (r: seq<bool>)
    requires s + size <= |tape|
    ensures |r| == |tape|
    ensures forall j :: 0 <= j < |r| && (j < s || s + size <= j) ==> r[j] == tape[j]
    ensures forall j :: s <= j < s + size ==> r[j] == flag
  {
    seq(|tape|, j requires 0 <= j < |tape| => if s <= j < s + size then flag else tape[j])
  }

  /** Marking a free block and then `deallocate` on it restores the tape. */
  lemma SetThenClear(tape: seq<bool>, s: nat, size: nat)
    requires FitsAt(tape, s, size)
    ensures SetRange(SetRange(tape, s, size, true), s, size, false) == tape
  {
    var r := SetRange(SetRange(tape, s, size, true), s, size, false);
    assert forall j :: 0 <= j < |r| ==> r[j] == tape[j];
  }

  /** `deallocate(index, size)`: clears exactly the cells `index .. index + size`; an
      index past the tape panics in the source. */
  function Deallocate(tape: seq<bool>, index: nat, size: nat): (r: seq<bool>)
    requires index + size <= |tape|
    ensures |r| == |tape|
    ensures forall j :: 0 <= j < |r| ==> r[j] == (tape[j] && !(index <= j < index + size))
  {
    SetRange(tape, index, size, false)
  }

  /** The search loop of `allocate` for a block of at least one cell. `check` is the
      right end of the window being tried, so the window starts at `check + 1 - size`. */
  method Search(tape: seq<bool>, size: nat) returns (start: Option<nat>)
    requires size >= 1
    ensures start.Some? ==> FitsAt(tape, start.value, size)
    ensures start.Some? ==> forall s: nat :: s < start.value ==> !FitsAt(tape, s, size)
    ensures start.None? <==> forall s: nat :: !FitsAt(tape, s, size)
  {
    var check: nat := size - 1;
    while true
      invariant check + 1 >= size
      invariant forall s: nat :: s + size <= check ==> !FitsAt(tape, s, size)
      decreases |tape| + size - check
    {
      if check >= |tape| {
        break;
      }
      var found := true;
      var i := 0;
      while i < size
        invariant 0 <= i <= size
        invariant found ==> forall j :: check - i < j <= check ==> !tape[j]
        invariant !found ==> check < |tape| + size && check + 1 >= size
        invariant !found ==> forall s: nat :: s + size <= check ==> !FitsAt(tape, s, size)
        decreases size - i
      {
        if tape[check - i] {
          ghost var taken := check - i;
          assert forall s: nat :: s + size <= check + size - i ==> !FitsAt(tape, s, size) by {
            forall s: nat | s + size <= check + size - i
              ensures !FitsAt(tape, s, size)
            {
              if s + size > check {
                assert s <= taken < s + size;
              }
            }
          }
          check := check + size - i;
          found := false;
          break;
        }
        i := i + 1;
      }
      if found {
        assert FitsAt(tape, check + 1 - size, size);
        return Some(check + 1 - size);
      }
    }
    forall s: nat
      ensures !FitsAt(tape, s, size)
    {
      if s + size <= |tape| {
        assert s + size <= check;
      }
    }
    start := None;
  }

  /** What `allocate` returns in the source: either the arithmetic on `size - 1`
      overflows, or the call completes with the new tape and the block found. */
  datatype Outcome = SubtractOverflow | Done(tape: seq<bool>, start: Option<nat>)

  /** `allocate` as written: the first step computes `size - 1` on an unsigned index,
      which overflows for a request of zero cells before the tape is looked at. */
  method AllocateAsWritten(tape: seq<bool>, size: nat) returns (r: Outcome)
    ensures r.SubtractOverflow? <==> size == 0
    ensures r.Done? && r.start.Some? ==>
      FitsAt(tape, r.start.value, size) && r.tape == SetRange(tape, r.start.value, size, true)
    ensures r.Done? && r.start.None? ==> r.tape == tape && forall s: nat :: !FitsAt(tape, s, size)
  {
    if size == 0 {
      return SubtractOverflow;
    }
    var start := Search(tape, size);
    if start.Some? {
      r := Done(SetRange(tape, start.value, size, true), start);
    } else {
      r := Done(tape, None);
    }
  }

  /** `allocate` with the zero-cell request answered by the empty block at 0: the lowest
      start of `size` consecutive free cells, which are all set afterwards and are the only
      cells that change; `None` exactly when no such block fits on the tape. */
  method Allocate(tape: seq<bool>, size: nat) returns (newTape: seq<bool>, start: Option<nat>)
    ensures |newTape| == |tape|
    ensures start.Some? ==> FitsAt(tape, start.value, size)
    ensures start.Some? ==> forall s: nat :: s < start.value ==> !FitsAt(tape, s, size)
    ensures start.Some? ==> newTape == SetRange(tape, start.value, size, true)
    ensures start.None? <==> forall s: nat :: !FitsAt(tape, s, size)
    ensures start.None? ==> newTape == tape
  {
    if size == 0 {
      assert FitsAt(tape, 0, 0);
      return tape, Some(0);
    }
    start := Search(tape, size);
    if start.Some? {
      newTape := SetRange(tape, start.value, size, true);
    } else {
      newTape := tape;
    }
  }
}
