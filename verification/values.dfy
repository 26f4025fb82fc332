// `src/value.rs`: cell-backed variables that either own their cell or borrow it, and
// the values of the language (constants or variables). An owned cell goes back to the
// free pool when it is dropped; the pool is passed explicitly instead of being shared.

module Values {
  import opened Wrappers
  import opened Bytes
  import PoolAllocator

  /** `Owned`: a cell taken from the pool, returned to it on drop. */
  datatype Owned = OwnedCell(address: U16, dirty: bool)

  datatype Variable = Owned(cell: Owned) | Borrow(address: U16)

  datatype Value = Constant(byte: U8) | Variable(variable: Variable)

  /** `is_owned`. */
  function IsOwned(v: Variable): (r: bool)
    ensures r <==> !IsBorrowed(v)
  {
    v.Owned?
  }

  /** `is_borrowed`. */
  function IsBorrowed(v: Variable): bool
  {
    v.Borrow?
  }

  /** `address`: the cell a variable denotes, whoever owns it. */
  function Address(v: Variable): (a: U16)
    ensures IsOwned(v) ==> a == v.cell.address
    ensures IsBorrowed(v) ==> a == v.address
  {
    match v
    case Owned(o) => o.address
    case Borrow(a) => a
  }

  /** `Owned::borrow`. */
  function BorrowOwned(o: Owned): (r: Variable)
    ensures IsBorrowed(r) && Address(r) == o.address
  {
    Borrow(o.address)
  }

  /** `Variable::borrow`: a borrow of the same cell. */
  function BorrowOf(v: Variable): (r: Variable)
    ensures IsBorrowed(r) && Address(r) == Address(v)
    ensures IsOwned(v) ==> r == BorrowOwned(v.cell)
  {
    Borrow(Address(v))
  }

  lemma BorrowIdempotent(v: Variable)
    ensures BorrowOf(BorrowOf(v)) == BorrowOf(v)
    ensures IsBorrowed(v) ==> BorrowOf(v) == v
  {
  }

  /** The cells a value denotes. */
  function Cells(v: Value): set<U16>
  {
    match v
    case Constant(_) => {}
    case Variable(x) => {Address(x)}
  }

  /** `Value::constant`. */
  function ConstantOf(byte: U8): (r: Value)
    ensures Cells(r) == {} && r.byte == byte
  {
    Constant(byte)
  }

  /** `Value::borrow`. */
  function BorrowedAt(a: U16): (r: Value)
    ensures r.Variable? && IsBorrowed(r.variable) && Cells(r) == {a}
  {
    Variable(Borrow(a))
  }

  /** `Value::owned`. */
  function OwnedValue(o: Owned): (r: Value)
    ensures r.Variable? && IsOwned(r.variable) && Cells(r) == {o.address}
  {
    Variable(Owned(o))
  }

  /** `Drop for Owned`: the address goes back on top of the pool. */
  function DropOwned(o: Owned, pool: PoolAllocator.Pool): (r: PoolAllocator.Pool)
    ensures r == PoolAllocator.Deallocate(pool, o.address)
  {
    pool + [o.address]
  }

  /** Dropping a variable releases its cell only when it owns it. */
  function DropVariable(v: Variable, pool: PoolAllocator.Pool): (r: PoolAllocator.Pool)
    ensures |r| == |pool| + (if IsOwned(v) then 1 else 0)
    ensures multiset(r)[Address(v)] == multiset(pool)[Address(v)] + (if IsOwned(v) then 1 else 0)
    ensures forall b :: b != Address(v) ==> multiset(r)[b] == multiset(pool)[b]
  {
    match v
    case Owned(o) => DropOwned(o, pool)
    case Borrow(_) => pool
  }

  /** Dropping a value: constants and borrows release nothing. */
  function DropValue(v: Value, pool: PoolAllocator.Pool): (r: PoolAllocator.Pool)
    ensures v.Constant? ==> r == pool
    ensures v.Variable? ==> r == DropVariable(v.variable, pool)
  {
    match v
    case Constant(_) => pool
    case Variable(x) => DropVariable(x, pool)
  }

  /** A variable and any borrow taken from it, both dropped, return the cell exactly once. */
  lemma DropWithBorrow(v: Variable, pool: PoolAllocator.Pool)
    ensures DropVariable(BorrowOf(v), DropVariable(v, pool))
         == if IsOwned(v) then PoolAllocator.Deallocate(pool, Address(v)) else pool
  {
  }

  /** A cell allocated into an `Owned` and dropped leaves the pool as it was. */
  lemma AllocateThenDrop(pool: PoolAllocator.Pool, near: U16, dirty: bool)
    requires pool != []
    ensures var (a, rest) := PoolAllocator.Allocate(pool, near);
            a.Some? && DropVariable(Owned(OwnedCell(a.value, dirty)), rest) == pool
  {
  }
}
