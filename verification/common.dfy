// Shared vocabulary: failure-compatible wrappers and the fixed-width integer
// types the Rust code uses (u8, i8, u16) with their wrapping conversions.

module Wrappers {

  datatype Option<+T> = None | Some(value: T) {
    predicate IsFailure() { None? }

    function PropagateFailure<U>(): Option<U>
      requires None?
    {
      None
    }

    function Extract(): T
      requires Some?
    {
      value
    }
  }

  datatype Result<+T, +E> = Ok(value: T) | Err(error: E) {
    predicate IsFailure() { Err? }

    function PropagateFailure<U>(): Result<U, E>
      requires Err?
    {
      Err(error)
    }

    function Extract(): T
      requires Ok?
    {
      value
    }
  }
}

module Bytes {

  /** Rust `u8`. */
  type U8 = x: int | 0 <= x < 256

  /** Rust `i8`. */
  type I8 = x: int | -128 <= x < 128

  /** Rust `u16`. */
  type U16 = x: int | 0 <= x < 0x1_0000

  const U16Max: U16 := 0xFFFF

  /** The value of `x` reduced modulo 256, as `wrapping_add`/`wrapping_sub` on `u8` give it. */
  function WrapU8(x: int): U8
  {
    x % 256
  }

  /** Wrapping an intermediate sum changes nothing modulo 256. */
  lemma WrapTwice(x: int, y: int)
    ensures WrapU8(WrapU8(x) + y) == WrapU8(x + y)
  {
  }

  /** Reinterpreting an `i8` as a `u8` does not change it modulo 256. */
  lemma WrapI8AsU8(x: int, a: I8)
    ensures WrapU8(x + I8AsU8(a)) == WrapU8(x + a)
  {
    if a < 0 {
      assert x + I8AsU8(a) == (x + a) + 256;
    }
  }

  /** Two's-complement reinterpretation `amount as u8` of an `i8`. */
  function I8AsU8(x: I8): U8
  {
    if x < 0 then x + 256 else x
  }

  /** `wrapping_add` on `i8`. */
  function WrapI8(x: int): I8
  {
    (x + 128) % 256 - 128
  }

  function Abs(x: int): nat
  {
    if x < 0 then -x else x
  }

  /** The members of `s` that are at least `lo`, in ascending order. */
  function AscendingFrom(s: set<U16>, lo: nat): (r: seq<U16>)
    ensures forall i :: 0 <= i < |r| ==> r[i] in s && r[i] >= lo
    ensures forall a :: a in s && a >= lo ==> a in r
    ensures forall i, j :: 0 <= i < j < |r| ==> r[i] < r[j]
    decreases 0x1_0000 - lo
  {
    if lo >= 0x1_0000 then []
    else (if lo in s then [lo as U16] else []) + AscendingFrom(s, lo + 1)
  }

  /** A `BTreeSet<u16>` walk: every member exactly once, smallest first. */
  function Ascending(s: set<U16>): seq<U16>
  {
    AscendingFrom(s, 0)
  }
}
