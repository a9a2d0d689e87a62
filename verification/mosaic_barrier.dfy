/** `BarrierRef` of the Mosaic GPU utilities
    (jax/experimental/mosaic/gpu/utils.py): a group of at most 32 hardware
    barriers sharing one 32-bit word of phase parities, one bit per barrier.
    The barrier offset is an `i32` value; the word is an `i32` register. */
module MosaicBarrier {
  import opened Results

  /** At most this many barriers share one parity word. */
  const MaxBarriers: nat := 32

  /** A barrier reference: the `i32` offset of its first barrier in the
      group and how many consecutive barriers it covers. The base address
      and the parity memref are left abstract. */
  datatype BarrierRef = BarrierRef(offset: bv32, numBarriers: int)

  /** The argument of `__getitem__`: a Python integer, a dynamic `index`
      value, a dynamic `i32` value, or a value of some other type. */
  datatype OffsetArg =
    | StaticOffset(n: int)
    | IndexValue(v: int)
    | I32Value(w: bv32)
    | OtherValue

  /** An integer as an `i32` constant or truncated to 32 bits: its value
      modulo `2^32`. */
  function ToI32(n: int): bv32 {
    (n % 0x1_0000_0000) as bv32
  }

  /** The offsets of a group's barriers are below 32. */
  lemma SmallI32(i: int)
    requires 0 <= i < MaxBarriers
    ensures ToI32(i) < 32
  {
    assert i % 0x1_0000_0000 == i;
  }

  /** `BarrierRef.initialize`: the barrier memref must be one-dimensional
      and hold at most 32 barriers; the group starts at offset 0. */
  function Initialize(shape: seq<int>): (r: Result<BarrierRef>)
    requires forall i :: 0 <= i < |shape| ==> shape[i] >= 0
    ensures |shape| != 1 ==> r == Err(ValueError)
    ensures |shape| == 1 && shape[0] > MaxBarriers ==> r == Err(NotImplementedError)
    ensures r.Ok? <==> |shape| == 1 && shape[0] <= MaxBarriers
    ensures r.Ok? ==> r.value.offset == 0 && r.value.numBarriers == shape[0]
  {
    if |shape| != 1 then Err(ValueError)
    else if shape[0] > MaxBarriers then Err(NotImplementedError)
    else Ok(BarrierRef(0, shape[0]))
  }

  /** The offset a selection adds, as `i32`; `None` when the argument has
      a type the source rejects. */
  function OffsetBits(o: OffsetArg): Option<bv32> {
    match o
    case StaticOffset(n) => Some(ToI32(n))
    case IndexValue(v) => Some(ToI32(v))
    case I32Value(w) => Some(w)
    case OtherValue => None
  }

  /** `BarrierRef.__getitem__` as written: a static offset is only checked
      against the upper bound. */
  function GetItemAsWritten(b: BarrierRef, o: OffsetArg): (r: Result<BarrierRef>)
    ensures o.StaticOffset? && o.n >= b.numBarriers ==> r == Err(IndexError)
    ensures o.OtherValue? ==> r == Err(ValueError)
    ensures r.Ok? ==> r.value.numBarriers == 1 && r.value.offset == b.offset + OffsetBits(o).value
  {
    if o.StaticOffset? && o.n >= b.numBarriers then Err(IndexError)
    else if o.OtherValue? then Err(ValueError)
    else Ok(BarrierRef(b.offset + OffsetBits(o).value, 1))
  }

  /** `BarrierRef.__getitem__` as intended: a static offset must name one
      of the group's barriers. */
  function GetItem(b: BarrierRef, o: OffsetArg): (r: Result<BarrierRef>)
    ensures o.StaticOffset? ==> (r.Ok? <==> 0 <= o.n < b.numBarriers)
    ensures o.StaticOffset? && !(0 <= o.n < b.numBarriers) ==> r == Err(IndexError)
    ensures o.OtherValue? ==> r == Err(ValueError)
    ensures r.Ok? ==> r.value.numBarriers == 1 && r.value.offset == b.offset + OffsetBits(o).value
  {
    if o.StaticOffset? && !(0 <= o.n < b.numBarriers) then Err(IndexError)
    else if o.OtherValue? then Err(ValueError)
    else Ok(BarrierRef(b.offset + OffsetBits(o).value, 1))
  }

  /** A reference whose barriers all have their bit in the parity word. */
  predicate Valid(b: BarrierRef) {
    forall i :: 0 <= i < b.numBarriers ==> b.offset + ToI32(i) < 32
  }

  /** A freshly initialized group is valid. */
  lemma InitializeValid(shape: seq<int>)
    requires forall i :: 0 <= i < |shape| ==> shape[i] >= 0
    requires Initialize(shape).Ok?
    ensures Valid(Initialize(shape).value)
  {
    forall i | 0 <= i < shape[0] ensures 0 + ToI32(i) < 32 {
      SmallI32(i);
    }
  }

  /** Selecting a barrier of a valid group by a static offset gives a valid
      single barrier. */
  lemma GetItemValid(b: BarrierRef, n: int)
    requires Valid(b) && GetItem(b, StaticOffset(n)).Ok?
    ensures Valid(GetItem(b, StaticOffset(n)).value)
    ensures GetItem(b, StaticOffset(n)).value.offset < 32
  {
    assert ToI32(0) == 0;
  }

  /** `__iter__`: a single barrier yields itself, a group yields each of its
      barriers in order. */
  function Iter(b: BarrierRef): (r: seq<BarrierRef>)
    ensures b.numBarriers == 1 ==> r == [b]
    ensures b.numBarriers != 1 ==> |r| == if b.numBarriers < 0 then 0 else b.numBarriers
  {
    if b.numBarriers == 1 then [b]
    else if b.numBarriers < 0 then []
    else seq(b.numBarriers, i requires 0 <= i < b.numBarriers => GetItem(b, StaticOffset(i)).value)
  }

  /** Iterating a valid group visits its barriers in order, each a valid
      single barrier. */
  lemma IterValid(b: BarrierRef, i: nat)
    requires Valid(b) && i < |Iter(b)|
    ensures Valid(Iter(b)[i]) && Iter(b)[i].numBarriers == 1
    ensures b.numBarriers != 1 ==> Iter(b)[i].offset == b.offset + ToI32(i)
  {
    if b.numBarriers != 1 {
      GetItemValid(b, i);
    }
  }

  /** Bit `j` of a 32-bit word. */
  function Bit(x: bv32, j: bv32): bool
    requires j < 32
  {
    (x >> j) & 1 == 1
  }

  /** `update_parities(parities)` for the barrier at `offset`: the current
      parity and the word with that barrier's bit toggled. `None` when the
      shift `1 << offset` is poison, that is when `offset >= 32`. */
  function UpdateParities(parities: bv32, offset: bv32): (r: Option<(bool, bv32)>)
    ensures r.Some? <==> offset < 32
  {
    if offset >= 32 then None
    else
      var mask := (1 as bv32) << offset;
      Some(((parities & mask) != 0, parities ^ mask))
  }

  /** The parity read is the barrier's own bit. */
  lemma ParityIsBit(parities: bv32, offset: bv32)
    requires offset < 32
    ensures UpdateParities(parities, offset).value.0 == Bit(parities, offset)
  {
  }

  /** The update toggles the barrier's own bit and no other. */
  lemma UpdateTogglesOnlyOwnBit(parities: bv32, offset: bv32, j: bv32)
    requires offset < 32 && j < 32
    ensures Bit(UpdateParities(parities, offset).value.1, j) == (Bit(parities, j) != (j == offset))
  {
  }

  /** Two waits on the same barrier restore the parity word, and the second
      reads the opposite parity of the first. */
  lemma UpdateTwice(parities: bv32, offset: bv32)
    requires offset < 32
    ensures UpdateParities(UpdateParities(parities, offset).value.1, offset).value.1 == parities
    ensures UpdateParities(UpdateParities(parities, offset).value.1, offset).value.0 ==
      !UpdateParities(parities, offset).value.0
  {
  }

  /** Every barrier of a valid group can update its parity. */
  lemma ValidUpdates(b: BarrierRef, parities: bv32)
    requires Valid(b) && b.numBarriers > 0
    ensures UpdateParities(parities, b.offset).Some?
  {
    assert ToI32(0) == 0;
    assert b.offset + ToI32(0) < 32;
  }

  /** As written, `barriers[-1]` on a group of four passes the bound check
      and yields the offset `2^32 - 1`, where the parity update is poison;
      as intended it is rejected. */
  lemma NegativeOffsetAccepted()
    ensures GetItemAsWritten(BarrierRef(0, 4), StaticOffset(-1)) == Ok(BarrierRef(0xFFFF_FFFF, 1))
    ensures UpdateParities(0, 0xFFFF_FFFF).None?
    ensures GetItem(BarrierRef(0, 4), StaticOffset(-1)) == Err(IndexError)
  {
    assert -1 % 0x1_0000_0000 == 0xFFFF_FFFF;
  }

  /** The two readings agree on every offset except negative static ones. */
  lemma GetItemAgreesOnNonNegative(b: BarrierRef, o: OffsetArg)
    requires !(o.StaticOffset? && o.n < 0)
    ensures GetItemAsWritten(b, o) == GetItem(b, o)
  {
  }
}
