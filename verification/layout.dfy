/** Options, results and the errors the memory engine reports. */
module Outcomes {
  datatype Option<+T> = None | Some(value: T)

  datatype Result<+T, +E> = Ok(value: T) | Err(error: E)

  datatype MemError =
    | UnknownMemoryID
    | AreaNotDefined
    | InvalidArea
    | CountZero
    | DstTooSmall
    | SrcTooSmall
    | OutOfBounds
    | StartOverflow
    | SizeZero
    | EmptyPort
    | UnitIDZero
    | NilMemory
}

/** The bounds arithmetic of one memory area. */
module Layouts {
  import opened Words
  import opened Bits
  import opened Outcomes

  /** `size` counts bits in bit areas and registers in register areas. */
  datatype AreaLayout = AreaLayout(start: u16, size: u16) {

    function Validate(): Option<MemError> {
      if size == 0 then Some(SizeZero)
      else if start + size > 0x10000 then Some(StartOverflow)
      else None
    }

    predicate Contains(address: u16, count: u16) {
      count != 0 && address >= start && address + count <= start + size
    }

    function Offset(address: u16): u16 {
      Wrap16(address - start)
    }

    /** Addresses of this area. */
    predicate Covers(address: int) {
      start <= address < start + size
    }

    /** True when the packed backing of a bit area of this size really has a place for every bit. */
    predicate Packable() {
      size <= MAX_BITS
    }

    /** A layout is accepted exactly when it has an address and all its addresses are 16-bit numbers. */
    lemma ValidateExact()
      ensures Validate().None? <==> size != 0 && forall a | start <= a < start + size :: a < 65536 && Covers(a)
    {
      if size != 0 && forall a | start <= a < start + size :: a < 65536 && Covers(a) {
        assert Covers(start + (size - 1));
      }
    }

    /** A request is accepted exactly when all its addresses lie in the area; then the offset is
        the distance from the start, and neither it nor any index added to it wraps. */
    lemma ContainsExact(address: u16, count: u16)
      ensures Contains(address, count) <==> count != 0 && forall a | address <= a < address + count :: Covers(a)
      ensures Contains(address, count) ==>
                && Offset(address) == address - start
                && count <= size
                && forall a | address <= a < address + count ::
                     Covers(a) && Wrap16(Offset(address) + (a - address)) == a - start
    {
      if count != 0 && forall a | address <= a < address + count :: Covers(a) {
        assert Covers(address) && Covers(address + (count - 1));
      }
    }
  }

  datatype MemoryLayouts = MemoryLayouts(
    coils: Option<AreaLayout>,
    discreteInputs: Option<AreaLayout>,
    holdingRegs: Option<AreaLayout>,
    inputRegs: Option<AreaLayout>)
  {
    /** The first error in the order in which the areas are checked. */
    function Validate(): Option<MemError> {
      if coils.Some? && coils.value.Validate().Some? then coils.value.Validate()
      else if discreteInputs.Some? && discreteInputs.value.Validate().Some? then discreteInputs.value.Validate()
      else if holdingRegs.Some? && holdingRegs.value.Validate().Some? then holdingRegs.value.Validate()
      else if inputRegs.Some? && inputRegs.value.Validate().Some? then inputRegs.value.Validate()
      else None
    }
  }

  // Area codes.
  const COILS: byte := 1
  const DISCRETE_INPUTS: byte := 2
  const HOLDING_REGS: byte := 3
  const INPUT_REGS: byte := 4

  predicate IsBitArea(area: byte) { area == COILS || area == DISCRETE_INPUTS }

  predicate IsRegArea(area: byte) { area == HOLDING_REGS || area == INPUT_REGS }

  /** The layout of an area, if the memory has it. */
  function LayoutOf(l: MemoryLayouts, area: byte): Option<AreaLayout> {
    if area == COILS then l.coils
    else if area == DISCRETE_INPUTS then l.discreteInputs
    else if area == HOLDING_REGS then l.holdingRegs
    else if area == INPUT_REGS then l.inputRegs
    else None
  }

  /** What the bit operations check before they look at the buffer. */
  function CheckBits(l: MemoryLayouts, area: byte, address: u16, count: u16): Result<AreaLayout, MemError> {
    if count == 0 then Err(CountZero)
    else if !IsBitArea(area) then Err(InvalidArea)
    else if LayoutOf(l, area).None? then Err(AreaNotDefined)
    else if !LayoutOf(l, area).value.Contains(address, count) then Err(OutOfBounds)
    else Ok(LayoutOf(l, area).value)
  }

  /** What the register operations check once the buffer is known to be long enough. */
  function CheckRegs(l: MemoryLayouts, area: byte, address: u16, count: u16): Result<AreaLayout, MemError> {
    if !IsRegArea(area) then Err(InvalidArea)
    else if LayoutOf(l, area).None? then Err(AreaNotDefined)
    else if !LayoutOf(l, area).value.Contains(address, count) then Err(OutOfBounds)
    else Ok(LayoutOf(l, area).value)
  }
}
