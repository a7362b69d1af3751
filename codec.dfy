/**
 The command-word splitter of the controller (`split_cmd`).

 The word at the head of the receive FIFO is cut into four fields, opcode,
 address, write data and immediate value, each an inclusive bit range
 `[high:low]` taken from the controller's layout configuration. A MyHDL slice
 `word[high + 1:low]` keeps the bits below `high + 1` and shifts right by `low`;
 it refuses a range whose upper bound `high + 1` does not exceed `low`.
 */
module Codec {
  import opened Bits

  datatype Option<T> = None | Some(value: T)

  /** An inclusive bit range `[high:low]` of a command word. */
  datatype BitRange = BitRange(high: nat, low: nat)
  {
    /** The slice `[high + 1:low]` is accepted by an `intbv`. */
    predicate WellFormed() { low <= high }

    function Width(): nat
      requires WellFormed()
    {
      high - low + 1
    }

    predicate Contains(i: nat) { low <= i <= high }

    predicate DisjointFrom(other: BitRange) { high < other.low || other.high < low }
  }

  /** The controller's layout configuration: the declared width of each field
      and the bit range it occupies in a command word. */
  datatype Layout = Layout(
    widthOpcode: nat, widthAddr: nat, widthData: nat, widthValue: nat,
    opcode: BitRange, addr: BitRange, data: BitRange, value: BitRange)
  {
    /** Every field range can be sliced. */
    predicate WellFormed()
    {
      opcode.WellFormed() && addr.WellFormed() && data.WellFormed() && value.WellFormed()
    }

    /** Each declared width is the number of bits its range spans. */
    predicate Consistent()
    {
      WellFormed() &&
      widthOpcode == opcode.Width() && widthAddr == addr.Width() &&
      widthData == data.Width() && widthValue == value.Width()
    }

    /** Each declared width is at least the number of bits its range spans,
        so a signal of that width can hold the field. */
    predicate WideEnough()
    {
      WellFormed() &&
      widthOpcode >= opcode.Width() && widthAddr >= addr.Width() &&
      widthData >= data.Width() && widthValue >= value.Width()
    }

    /** Each declared width is one more than the number of bits its range spans. */
    predicate OneBitWider()
    {
      WellFormed() &&
      widthOpcode == opcode.Width() + 1 && widthAddr == addr.Width() + 1 &&
      widthData == data.Width() + 1 && widthValue == value.Width() + 1
    }

    /** No two fields share a bit of the command word. */
    predicate Disjoint()
    {
      opcode.DisjointFrom(addr) && opcode.DisjointFrom(data) && opcode.DisjointFrom(value) &&
      addr.DisjointFrom(data) && addr.DisjointFrom(value) && data.DisjointFrom(value)
    }

    function RangeOf(f: FieldName): BitRange
    {
      match f
      case Opcode => opcode
      case Addr => addr
      case Data => data
      case Value => value
    }
  }

  /** The four fields of a command word. */
  datatype FieldName = Opcode | Addr | Data | Value

  /** The four fields of a decoded command word. */
  datatype Command = Command(opcode: nat, addr: nat, data: nat, value: nat)
  {
    function Get(f: FieldName): nat
    {
      match f
      case Opcode => opcode
      case Addr => addr
      case Data => data
      case Value => value
    }
  }

  /** `word[r.high + 1:r.low]`: mask the bits below `high + 1`, shift right by
      `low`; `None` where the slice is refused. */
  function Slice(word: nat, r: BitRange): (v: Option<nat>)
    ensures v.Some? <==> r.WellFormed()
    ensures v.Some? ==> v.value < Pow2(r.Width())
  {
    if r.high + 1 <= r.low then None
    else
      MaskThenShift(word, r.low, r.Width());
      Some((word % Pow2(r.high + 1)) / Pow2(r.low))
  }

  /** A slice is the field `(word >> low) mod 2^(high - low + 1)`. */
  lemma SliceIsField(word: nat, r: BitRange)
    requires r.WellFormed()
    ensures Slice(word, r) == Some(Field(word, r.low, r.Width()))
  {
    MaskThenShift(word, r.low, r.Width());
  }

  /** Bit `i` of a slice is bit `low + i` of the word inside the range, and 0
      above it: the slice is exactly the inclusive range `[high:low]`. */
  lemma SliceBits(word: nat, r: BitRange, i: nat)
    requires r.WellFormed()
    ensures Bit(Slice(word, r).value, i) == if i < r.Width() then Bit(word, r.low + i) else 0
  {
    SliceIsField(word, r);
    FieldBits(word, r.low, r.Width(), i);
  }

  /** Changing bits of a word outside `[high:low]` does not change the slice. */
  lemma SliceIgnoresOtherBits(w1: nat, w2: nat, r: BitRange)
    requires r.WellFormed()
    requires forall i :: r.Contains(i) ==> Bit(w1, i) == Bit(w2, i)
    ensures Slice(w1, r) == Slice(w2, r)
  {
    SliceIsField(w1, r);
    SliceIsField(w2, r);
    forall i | r.low <= i < r.low + r.Width()
      ensures Bit(w1, i) == Bit(w2, i)
    {
      assert r.Contains(i);
    }
    FieldAgree(w1, w2, r.low, r.Width());
  }

  /** Rewriting the bits of one field leaves the slice of any field whose
      range does not overlap it unchanged. */
  lemma DisjointFieldsIndependent(w1: nat, w2: nat, written: BitRange, read: BitRange)
    requires read.WellFormed() && written.DisjointFrom(read)
    requires forall i :: !written.Contains(i) ==> Bit(w1, i) == Bit(w2, i)
    ensures Slice(w1, read) == Slice(w2, read)
  {
    forall i | read.Contains(i)
      ensures Bit(w1, i) == Bit(w2, i)
    {
      assert !written.Contains(i);
    }
    SliceIgnoresOtherBits(w1, w2, read);
  }

  /** `split_cmd`: the four fields of the command word. Decoding never fails
      on a well-formed layout, and each field is `(word >> low) mod 2^width`
      for its range, so it fits the number of bits the range spans. */
  function SplitCmd(layout: Layout, word: nat): (r: Option<Command>)
    ensures r.Some? <==> layout.WellFormed()
    ensures r.Some? ==>
      r.value.opcode == Field(word, layout.opcode.low, layout.opcode.Width()) &&
      r.value.addr == Field(word, layout.addr.low, layout.addr.Width()) &&
      r.value.data == Field(word, layout.data.low, layout.data.Width()) &&
      r.value.value == Field(word, layout.value.low, layout.value.Width())
    ensures r.Some? ==>
      r.value.opcode < Pow2(layout.opcode.Width()) && r.value.addr < Pow2(layout.addr.Width()) &&
      r.value.data < Pow2(layout.data.Width()) && r.value.value < Pow2(layout.value.Width())
  {
    if !layout.WellFormed() then None
    else
      SliceIsField(word, layout.opcode);
      SliceIsField(word, layout.addr);
      SliceIsField(word, layout.data);
      SliceIsField(word, layout.value);
      Some(Command(
        Slice(word, layout.opcode).value, Slice(word, layout.addr).value,
        Slice(word, layout.data).value, Slice(word, layout.value).value))
  }

  /** On a layout whose fields do not overlap, rewriting the bits of one
      field of a word leaves the other three decoded fields unchanged. */
  lemma SplitCmdFieldsIndependent(layout: Layout, w1: nat, w2: nat, written: FieldName)
    requires layout.WellFormed() && layout.Disjoint()
    requires forall i :: !layout.RangeOf(written).Contains(i) ==> Bit(w1, i) == Bit(w2, i)
    ensures forall f :: f != written ==> SplitCmd(layout, w1).value.Get(f) == SplitCmd(layout, w2).value.Get(f)
  {
    forall f | f != written
      ensures SplitCmd(layout, w1).value.Get(f) == SplitCmd(layout, w2).value.Get(f)
    {
      var r := layout.RangeOf(f);
      assert layout.RangeOf(written).DisjointFrom(r);
      DisjointFieldsIndependent(w1, w2, layout.RangeOf(written), r);
      SliceIsField(w1, r);
      SliceIsField(w2, r);
    }
  }

  // ---------------------------------------------------------------------
  // Storing the fields into signals

  /** Driving `v` onto a signal declared as `intbv(0)[nbits:0]`: the
      declaration needs `nbits > 0` and the signal refuses values of
      `2^nbits` and above. A value is held, unchanged, exactly when none of
      its bits lies at or above the signal's width. */
  function Store(v: nat, nbits: int): (r: Option<nat>)
    ensures r.Some? <==> nbits > 0 && forall i: nat :: nbits <= i ==> Bit(v, i) == 0
    ensures r.Some? ==> r.value == v
  {
    if nbits > 0 then
      FitsIffHighBitsClear(v, nbits);
      if v < Pow2(nbits) then Some(v) else None
    else None
  }

  /** Drive the four fields of `cmd` onto signals of the given widths: the
      command is held unchanged when every field fits its signal, and refused
      as a whole otherwise. */
  function StoreCommand(cmd: Command, wOpcode: int, wAddr: int, wData: int, wValue: int): (r: Option<Command>)
    ensures r.Some? <==>
      wOpcode > 0 && cmd.opcode < Pow2(wOpcode) && wAddr > 0 && cmd.addr < Pow2(wAddr) &&
      wData > 0 && cmd.data < Pow2(wData) && wValue > 0 && cmd.value < Pow2(wValue)
    ensures r.Some? ==> r.value == cmd
  {
    match (Store(cmd.opcode, wOpcode), Store(cmd.addr, wAddr), Store(cmd.data, wData), Store(cmd.value, wValue))
    case (Some(op), Some(a), Some(d), Some(v)) => Some(Command(op, a, d, v))
    case _ => None
  }

  /** `split_cmd` as built: the fields land on `cmd_opcode`, `cmd_addr`,
      `cmd_data` and `cmd_value`, which are declared one bit narrower than
      the configured widths. Storing never alters a field; it can only
      refuse one that does not fit. */
  function SplitCmdAsDeclared(layout: Layout, word: nat): (r: Option<Command>)
    ensures r.Some? ==> r == SplitCmd(layout, word)
  {
    match SplitCmd(layout, word)
    case None => None
    case Some(cmd) =>
      StoreCommand(cmd, layout.widthOpcode - 1, layout.widthAddr - 1, layout.widthData - 1, layout.widthValue - 1)
  }

  /** With signals one bit narrower than the field, a command word whose
      opcode field has its top bit set cannot be held: the word decodes, but
      the as-declared signals refuse it. This is MyHDL's simulation semantics,
      where assigning an out-of-range value to `.next` is an error; a design
      converted to Verilog or VHDL would instead silently truncate the top
      bit. */
  lemma DeclaredSignalsRefuseTopBit(layout: Layout)
    requires layout.Consistent()
    ensures SplitCmd(layout, Pow2(layout.opcode.high)).Some?
    ensures SplitCmdAsDeclared(layout, Pow2(layout.opcode.high)) == None
  {
    var r := layout.opcode;
    var word := Pow2(r.high);
    var k := r.high - r.low;
    SliceIsField(word, r);
    FieldOfPow2(r.low, k, r.Width());
    assert Slice(word, r) == Some(Pow2(k));
    assert Store(Pow2(k), layout.widthOpcode - 1) == None;
  }

  /** On a layout whose widths equal their spans, the as-declared signals
      refuse a word exactly when some range is a single bit (its signal would
      be declared with no bits) or has its top bit set in the word. */
  lemma DeclaredSignalsRefuseExactlyTopBits(layout: Layout, word: nat)
    requires layout.Consistent()
    ensures SplitCmdAsDeclared(layout, word).Some? <==>
      DeclaredFieldFits(word, layout.opcode) && DeclaredFieldFits(word, layout.addr) &&
      DeclaredFieldFits(word, layout.data) && DeclaredFieldFits(word, layout.value)
  {
    DeclaredFieldFitsIffTopBitClear(word, layout.opcode);
    DeclaredFieldFitsIffTopBitClear(word, layout.addr);
    DeclaredFieldFitsIffTopBitClear(word, layout.data);
    DeclaredFieldFitsIffTopBitClear(word, layout.value);
  }

  /** The field of range `r` fits a signal one bit narrower than the range:
      the range spans more than one bit and the word's bit `r.high` is clear. */
  predicate DeclaredFieldFits(word: nat, r: BitRange)
  {
    r.low < r.high && Bit(word, r.high) == 0
  }

  lemma DeclaredFieldFitsIffTopBitClear(word: nat, r: BitRange)
    requires r.WellFormed()
    ensures (r.Width() - 1 > 0 && Field(word, r.low, r.Width()) < Pow2(r.Width() - 1)) <==> DeclaredFieldFits(word, r)
  {
    var n := r.Width();
    if n > 1 {
      FitsBelowTopBit(Field(word, r.low, n), n);
      FieldBits(word, r.low, n, n - 1);
    }
  }

  /** `split_cmd` with the field signals declared at the configured widths.
      Storing never alters a field; it can only refuse one that does not fit. */
  function SplitCmdIntoSignals(layout: Layout, word: nat): (r: Option<Command>)
    ensures r.Some? ==> r == SplitCmd(layout, word)
  {
    match SplitCmd(layout, word)
    case None => None
    case Some(cmd) =>
      StoreCommand(cmd, layout.widthOpcode, layout.widthAddr, layout.widthData, layout.widthValue)
  }

  /** A value below `2^span` fits any signal at least `span` bits wide. */
  lemma FitsWider(v: nat, span: nat, nbits: nat)
    requires v < Pow2(span) && span <= nbits
    ensures v < Pow2(nbits)
  {
    if span < nbits {
      Pow2Monotone(span, nbits);
    }
  }

  /** Declared at the configured widths, the field signals hold every
      decoded command unchanged, for every word, whenever each width covers
      its range. */
  lemma SignalsHoldEveryCommand(layout: Layout, word: nat)
    requires layout.WideEnough()
    ensures SplitCmdIntoSignals(layout, word) == SplitCmd(layout, word)
    ensures SplitCmdIntoSignals(layout, word).Some?
  {
    var cmd := SplitCmd(layout, word).value;
    FitsWider(cmd.opcode, layout.opcode.Width(), layout.widthOpcode);
    FitsWider(cmd.addr, layout.addr.Width(), layout.widthAddr);
    FitsWider(cmd.data, layout.data.Width(), layout.widthData);
    FitsWider(cmd.value, layout.value.Width(), layout.widthValue);
  }

  /** The as-declared signals are right for a layout whose widths are one bit
      more than their ranges: then they hold every decoded command. */
  lemma DeclaredSignalsHoldWhenOneBitWider(layout: Layout, word: nat)
    requires layout.OneBitWider()
    ensures SplitCmdAsDeclared(layout, word) == SplitCmd(layout, word)
    ensures SplitCmdAsDeclared(layout, word).Some?
  {
    var cmd := SplitCmd(layout, word).value;
    assert Store(cmd.opcode, layout.widthOpcode - 1) == Some(cmd.opcode);
    assert Store(cmd.addr, layout.widthAddr - 1) == Some(cmd.addr);
    assert Store(cmd.data, layout.widthData - 1) == Some(cmd.data);
    assert Store(cmd.value, layout.widthValue - 1) == Some(cmd.value);
  }
}
