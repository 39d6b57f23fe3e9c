/**
 * The GPIO block of the BCM2711 (Raspberry Pi 4): a generic read-modify-write of an
 * N-bit field inside a 32-bit memory-mapped register (gpio_call) with its set, clear
 * and pull specialisations, the function-select update with its 10-fields-of-3-bits
 * packing, and the pull-enable protocol with its settle delays.
 *
 * Register contents are `bv32`; the pin, address and field-size arithmetic of the C
 * code is done on `unsigned int` values, modelled as `u32` integers, with the 32-bit
 * wrap-around of the address written out.
 */
module Gpio {

  import Registers
  import opened Types

  const WORD_RANGE: int := 0x1_0000_0000

  const PERIPHERAL_BASE: u32 := 0xFE00_0000
  const GPFSEL0: u32 := PERIPHERAL_BASE + 0x20_0000
  const GPSET0: u32 := PERIPHERAL_BASE + 0x20_001C
  const GPCLR0: u32 := PERIPHERAL_BASE + 0x20_0028
  const GPPUPPDN0: u32 := PERIPHERAL_BASE + 0x20_00E4

  const GPIO_MAX_PIN: u32 := 53
  const GPIO_FUNCTION_OUT: GpioFunc := 1
  const GPIO_FUNCTION_ALT5: GpioFunc := 2
  const GPIO_FUNCTION_ALT3: GpioFunc := 7
  const GPIO_FUNCTION_ALT0: GpioFunc := 4

  const PULL_NONE: bv32 := 0
  const PULL_DOWN: bv32 := 2
  const PULL_UP: bv32 := 1

  /** The settle time gpio_pin_enable waits between its steps. */
  const PUPD_DELAY: nat := 150

  /** A function-select code: the hardware field is three bits wide. */
  type GpioFunc = f: bv32 | f <= 7

  // ---------------------------------------------------------------------------
  // Small integers as shift amounts

  lemma SmallAsBv(s: int)
    requires 0 <= s <= 32
    ensures (s as bv32) as int == s
  {
  }

  lemma BvSumBelow32(a: bv32, b: bv32)
    requires a as int + b as int <= 32
    ensures a <= 32 && b <= 32 && a + b <= 32
  {
  }

  lemma BvBelowSum(a: bv32, b: bv32, c: bv32)
    requires a <= 32 && b <= 32 && c < 32
    requires c as int < a as int + b as int
    ensures c < a + b
  {
  }

  /** Two small naturals whose sum is at most 32 keep that bound as bit-vectors. */
  lemma AsShiftAmounts(a: int, b: int)
    requires 0 <= a && 0 <= b && a + b <= 32
    ensures (a as bv32) as int == a && (b as bv32) as int == b
    ensures (a as bv32) <= 32 && (b as bv32) <= 32 && (a as bv32) + (b as bv32) <= 32
  {
    SmallAsBv(a);
    SmallAsBv(b);
    BvSumBelow32(a as bv32, b as bv32);
  }

  // ---------------------------------------------------------------------------
  // Field arithmetic of gpio_call

  /**
   * Field sizes for which the C arithmetic is defined: 0 divides by zero in
   * `32 / field_size`, and 31 or 32 overflow the signed `1 << field_size`.
   */
  predicate ValidFieldSize(fieldSize: int) {
    1 <= fieldSize <= 30
  }

  /** `(1 << field_size) - 1`: exactly the low `field_size` bits are set. */
  function FieldMask(fieldSize: int): (m: bv32)
    requires ValidFieldSize(fieldSize)
    ensures forall i :: 0 <= i < 32 ==> (Bit(m, i) <==> i < fieldSize)
  {
    AsShiftAmounts(fieldSize, 0);
    var m := Registers.Mask(fieldSize as bv32);
    MaskBits(fieldSize, m);
    m
  }

  lemma MaskBits(fieldSize: int, m: bv32)
    requires ValidFieldSize(fieldSize) && (fieldSize as bv32) <= 32
    requires m == Registers.Mask(fieldSize as bv32)
    ensures forall i :: 0 <= i < 32 ==> (Bit(m, i) <==> i < fieldSize)
  {
    AsShiftAmounts(fieldSize, 0);
    forall i | 0 <= i < 32
      ensures Bit(m, i) <==> i < fieldSize
    {
      AsShiftAmounts(i, 0);
      Registers.MaskBit(fieldSize as bv32, i as bv32);
      if i < fieldSize {
        BvBelow(i as bv32, fieldSize as bv32);
      } else {
        BvAtLeast(i as bv32, fieldSize as bv32);
      }
    }
  }

  /** `32 / field_size`: how many fields one register holds. */
  function NumFields(fieldSize: int): (n: int)
    requires ValidFieldSize(fieldSize)
    ensures 1 <= n && n * fieldSize <= 32 < (n + 1) * fieldSize
  {
    32 / fieldSize
  }

  /** `base + (pin_number / num_fields) * 4` in unsigned 32-bit arithmetic. */
  function WordAddress(base: u32, pinNumber: u32, fieldSize: int): (a: u32)
    requires ValidFieldSize(fieldSize)
    ensures base + (pinNumber / NumFields(fieldSize)) * 4 < WORD_RANGE ==>
              a == base + (pinNumber / NumFields(fieldSize)) * 4
  {
    var offset := (pinNumber / NumFields(fieldSize)) * 4;
    (base + offset) % WORD_RANGE
  }

  /**
   * `(pin_number % num_fields) * field_size`. The field starting there ends inside
   * the word, whether or not the field size divides 32.
   */
  function FieldShift(pinNumber: u32, fieldSize: int): (s: nat)
    requires ValidFieldSize(fieldSize)
    ensures s + fieldSize <= 32
  {
    FieldShiftFits(pinNumber, fieldSize);
    (pinNumber % NumFields(fieldSize)) * fieldSize
  }

  lemma FieldShiftFits(pinNumber: nat, fieldSize: int)
    requires ValidFieldSize(fieldSize)
    ensures (pinNumber % (32 / fieldSize)) * fieldSize + fieldSize <= 32
  {
    var n := 32 / fieldSize;
    var k := pinNumber % n;
    assert (k + 1) * fieldSize <= n * fieldSize;
  }

  /** A field of `fieldSize` bits at `shift` lies inside one 32-bit word. */
  predicate InWord(fieldSize: int, shift: int) {
    ValidFieldSize(fieldSize) && 0 <= shift && shift + fieldSize <= 32
  }

  /** The read-modify-write of gpio_call: clear the field, then OR the value into it. */
  function InsertField(word: bv32, value: bv32, fieldSize: int, shift: int): bv32
    requires InWord(fieldSize, shift)
  {
    AsShiftAmounts(shift, fieldSize);
    Registers.Insert(word, value, fieldSize as bv32, shift as bv32)
  }

  /** The value held by the field of `fieldSize` bits at `shift`. */
  function FieldValue(word: bv32, fieldSize: int, shift: int): bv32
    requires InWord(fieldSize, shift)
  {
    AsShiftAmounts(shift, fieldSize);
    Registers.Extract(word, fieldSize as bv32, shift as bv32)
  }

  /** The word with the field of `fieldSize` bits at `shift` cleared: every other bit. */
  function OutsideField(word: bv32, fieldSize: int, shift: int): bv32
    requires InWord(fieldSize, shift)
  {
    AsShiftAmounts(shift, fieldSize);
    Registers.Clear(word, fieldSize as bv32, shift as bv32)
  }

  /** `word & ~(mask << shift)`. */
  function ClearBits(word: bv32, mask: bv32, shift: int): bv32
    requires 0 <= shift <= 32
  {
    AsShiftAmounts(shift, 0);
    Registers.ClearBits(word, mask, shift as bv32)
  }

  /** `word | (value << shift)`. */
  function OrBits(word: bv32, value: bv32, shift: int): bv32
    requires 0 <= shift <= 32
  {
    AsShiftAmounts(shift, 0);
    Registers.OrBits(word, value, shift as bv32)
  }

  /** The C statements `&= ~(mask << shift)` and `|= value << shift` are InsertField. */
  lemma InsertIsClearThenOr(word: bv32, value: bv32, fieldSize: int, shift: int)
    requires InWord(fieldSize, shift)
    ensures InsertField(word, value, fieldSize, shift)
            == OrBits(ClearBits(word, FieldMask(fieldSize), shift), value, shift)
    ensures ClearBits(word, FieldMask(fieldSize), shift) == OutsideField(word, fieldSize, shift)
  {
  }

  /** Bit `i` of a word. */
  predicate Bit(word: bv32, i: int)
    requires 0 <= i < 32
  {
    AsShiftAmounts(i, 0);
    Registers.Bit(word, i as bv32)
  }

  lemma BvBelow(a: bv32, b: bv32)
    requires a as int < b as int && b <= 32
    ensures a < b
  {
  }

  lemma BvSumAtMost(a: bv32, b: bv32, c: bv32)
    requires a as int + b as int <= c as int && c < 32
    ensures a + b <= c
  {
  }

  lemma BvAtLeast(a: bv32, b: bv32)
    requires b as int <= a as int && a <= 32
    ensures b <= a
  {
  }

  /** The bit-vector forms of a field size and shift that satisfy InWord. */
  lemma FieldAsBv(fieldSize: int, shift: int)
    requires InWord(fieldSize, shift)
    ensures 0 < fieldSize as bv32 <= 30 && shift as bv32 <= 32
    ensures (shift as bv32) + (fieldSize as bv32) <= 32
  {
    AsShiftAmounts(shift, fieldSize);
    BvBelow(0, fieldSize as bv32);
    BvAtLeast(30, fieldSize as bv32);
  }

  /**
   * After the read-modify-write the field reads back the value written, and the bits
   * outside the field are those of the old word.
   */
  lemma InsertFieldReadsBack(word: bv32, value: bv32, fieldSize: int, shift: int)
    requires InWord(fieldSize, shift)
    requires value <= FieldMask(fieldSize)
    ensures FieldValue(InsertField(word, value, fieldSize, shift), fieldSize, shift) == value
    ensures OutsideField(InsertField(word, value, fieldSize, shift), fieldSize, shift)
            == OutsideField(word, fieldSize, shift)
  {
    FieldAsBv(fieldSize, shift);
    var f, s := fieldSize as bv32, shift as bv32;
    var w := InsertField(word, value, fieldSize, shift);
    assert w == Registers.Insert(word, value, f, s);
    assert FieldValue(w, fieldSize, shift) == Registers.Extract(w, f, s);
    assert OutsideField(w, fieldSize, shift) == Registers.Clear(w, f, s);
    assert OutsideField(word, fieldSize, shift) == Registers.Clear(word, f, s);
    Registers.InsertReadsBack(word, value, f, s);
    Registers.InsertKeepsOutside(word, value, f, s);
  }

  /** The C read-modify-write leaves the value in the field and the other bits as they were. */
  lemma ReadModifyWrite(read: bv32, value: bv32, fieldSize: int, shift: int)
    requires InWord(fieldSize, shift) && value <= FieldMask(fieldSize)
    ensures var w := OrBits(ClearBits(read, FieldMask(fieldSize), shift), value, shift);
      && w == InsertField(read, value, fieldSize, shift)
      && FieldValue(w, fieldSize, shift) == value
      && OutsideField(w, fieldSize, shift) == OutsideField(read, fieldSize, shift)
  {
    InsertIsClearThenOr(read, value, fieldSize, shift);
    InsertFieldReadsBack(read, value, fieldSize, shift);
  }

  /** The bit-vector form of a bit index outside a field that satisfies InWord. */
  lemma OutsideBitAsBv(fieldSize: int, shift: int, i: int)
    requires InWord(fieldSize, shift)
    requires 0 <= i < 32 && (i < shift || shift + fieldSize <= i)
    ensures (i as bv32) < 32
    ensures (i as bv32) < (shift as bv32) || (shift as bv32) + (fieldSize as bv32) <= (i as bv32)
  {
    AsShiftAmounts(shift, fieldSize);
    AsShiftAmounts(i, 0);
    var s, f, b := shift as bv32, fieldSize as bv32, i as bv32;
    BvBelow(b, 32);
    if i < shift {
      BvBelow(b, s);
    } else {
      BvSumAtMost(s, f, b);
    }
  }

  lemma IntAtMostAsBv(x: int, y: int)
    requires 0 <= x <= y <= 32
    ensures (x as bv32) <= (y as bv32)
  {
    SmallAsBv(x);
    SmallAsBv(y);
    BvAtLeast(y as bv32, x as bv32);
  }

  lemma IntBelowSumAsBv(i: int, s: int, f: int)
    requires 0 <= i && 0 <= s && 0 <= f && s + f <= 32 && i < s + f
    ensures (i as bv32) < (s as bv32) + (f as bv32)
  {
    AsShiftAmounts(s, f);
    SmallAsBv(i);
    BvBelow(i as bv32, 32);
    BvBelowSum(s as bv32, f as bv32, i as bv32);
  }

  /**
   * `word & ~(mask << shift)` bit by bit: every bit inside the field is 0 and every
   * bit outside it keeps its value.
   */
  lemma OutsideFieldBits(word: bv32, fieldSize: int, shift: int, i: int)
    requires InWord(fieldSize, shift) && 0 <= i < 32
    ensures Bit(ClearBits(word, FieldMask(fieldSize), shift), i)
            <==> Bit(word, i) && (i < shift || shift + fieldSize <= i)
  {
    InsertIsClearThenOr(word, 0, fieldSize, shift);
    if i < shift || shift + fieldSize <= i {
      ClearedBitOutside(word, fieldSize, shift, i);
    } else {
      ClearedBitInside(word, fieldSize, shift, i);
    }
  }

  lemma ClearedBitOutside(word: bv32, fieldSize: int, shift: int, i: int)
    requires InWord(fieldSize, shift) && 0 <= i < 32 && (i < shift || shift + fieldSize <= i)
    ensures Bit(OutsideField(word, fieldSize, shift), i) == Bit(word, i)
  {
    FieldAsBv(fieldSize, shift);
    OutsideBitAsBv(fieldSize, shift, i);
    Registers.ClearKeepsBit(word, fieldSize as bv32, shift as bv32, i as bv32);
  }

  lemma ClearedBitInside(word: bv32, fieldSize: int, shift: int, i: int)
    requires InWord(fieldSize, shift) && shift <= i < shift + fieldSize
    ensures !Bit(OutsideField(word, fieldSize, shift), i)
  {
    FieldAsBv(fieldSize, shift);
    IntAtMostAsBv(shift, i);
    IntBelowSumAsBv(i, shift, fieldSize);
    Registers.ClearZeroesBit(word, fieldSize as bv32, shift as bv32, i as bv32);
  }

  /** Bit by bit: every bit below or above the field keeps its old value. */
  lemma InsertFieldKeepsBit(word: bv32, value: bv32, fieldSize: int, shift: int, i: int)
    requires InWord(fieldSize, shift)
    requires value <= FieldMask(fieldSize)
    requires 0 <= i < 32 && (i < shift || shift + fieldSize <= i)
    ensures Bit(InsertField(word, value, fieldSize, shift), i) == Bit(word, i)
  {
    FieldAsBv(fieldSize, shift);
    OutsideBitAsBv(fieldSize, shift, i);
    Registers.InsertKeepsBit(word, value, fieldSize as bv32, shift as bv32, i as bv32);
  }

  lemma MulMonotone(a: int, b: int, c: int)
    requires a <= b && 0 <= c
    ensures a * c <= b * c
  {
  }

  /** Numbers with the same quotient by `n` and the same remainder are equal. */
  lemma SameQuotientSameRemainder(p: nat, q: nat, n: int)
    requires 1 <= n && p / n == q / n && p % n == q % n
    ensures p == q
  {
    assert p == n * (p / n) + p % n;
    assert q == n * (q / n) + q % n;
  }

  /** Two different pins addressed to the same word by gpio_call own disjoint fields. */
  lemma FieldsOfPinsDisjoint(p: u32, q: u32, fieldSize: int)
    requires ValidFieldSize(fieldSize)
    requires p != q && p / NumFields(fieldSize) == q / NumFields(fieldSize)
    ensures FieldShift(p, fieldSize) + fieldSize <= FieldShift(q, fieldSize)
         || FieldShift(q, fieldSize) + fieldSize <= FieldShift(p, fieldSize)
  {
    var n := NumFields(fieldSize);
    var kp, kq := p % n, q % n;
    if kp == kq {
      SameQuotientSameRemainder(p, q, n);
    }
    DistinctSlotsDisjoint(kp, kq, fieldSize);
  }

  /** Fields of one width that start at different multiples of it do not overlap. */
  lemma DistinctSlotsDisjoint(kp: nat, kq: nat, fieldSize: int)
    requires kp != kq && 0 <= fieldSize
    ensures kp * fieldSize + fieldSize <= kq * fieldSize || kq * fieldSize + fieldSize <= kp * fieldSize
  {
    if kp < kq {
      MulMonotone(kp + 1, kq, fieldSize);
      assert (kp + 1) * fieldSize == kp * fieldSize + fieldSize;
    } else {
      MulMonotone(kq + 1, kp, fieldSize);
      assert (kq + 1) * fieldSize == kq * fieldSize + fieldSize;
    }
  }

  /**
   * Writing the field of pin `p` leaves every bit of the field of any other pin `q`
   * held by the same word as it was.
   */
  lemma InsertFieldKeepsOtherPins(word: bv32, value: bv32, p: u32, q: u32, fieldSize: int, i: int)
    requires ValidFieldSize(fieldSize) && value <= FieldMask(fieldSize)
    requires p != q && p / NumFields(fieldSize) == q / NumFields(fieldSize)
    requires FieldShift(q, fieldSize) <= i < FieldShift(q, fieldSize) + fieldSize
    ensures Bit(InsertField(word, value, fieldSize, FieldShift(p, fieldSize)), i) == Bit(word, i)
  {
    FieldsOfPinsDisjoint(p, q, fieldSize);
    InsertFieldKeepsBit(word, value, fieldSize, FieldShift(p, fieldSize), i);
  }

  /**
   * gpio_pull packs sixteen 2-bit fields per word: pin 5 is in the first GPPUPPDN
   * word at bit 10, pin 20 in the second at bit 8; gpio_set packs 32 pins per word.
   */
  lemma PullAndSetExamples()
    ensures WordAddress(GPPUPPDN0, 5, 2) == GPPUPPDN0 && FieldShift(5, 2) == 10
    ensures WordAddress(GPPUPPDN0, 20, 2) == GPPUPPDN0 + 4 && FieldShift(20, 2) == 8
    ensures WordAddress(GPSET0, 53, 1) == GPSET0 + 4 && FieldShift(53, 1) == 21
  {
  }

  // ---------------------------------------------------------------------------
  // Function select: ten 3-bit fields per register

  /** `pinNumber / 10`: the func_select register holding the pin. */
  function FuncSelectIndex(pinNumber: u8): (reg: nat)
    ensures reg * 10 <= pinNumber < reg * 10 + 10
  {
    pinNumber / 10
  }

  /** `(pinNumber * 3) % 30`: the first bit of the pin's field. */
  function FuncSelectShift(pinNumber: u8): (bitStart: nat)
    ensures bitStart == (pinNumber % 10) * 3 && bitStart <= 27
  {
    FuncSelectShiftIsFieldIndex(pinNumber);
    (pinNumber * 3) % 30
  }

  lemma {:induction false} FuncSelectShiftIsFieldIndex(pinNumber: nat)
    ensures (pinNumber * 3) % 30 == (pinNumber % 10) * 3
  {
    var q, r := pinNumber / 10, pinNumber % 10;
    assert pinNumber * 3 == q * 30 + r * 3;
  }

  /** Pin 11 is field 1 of register 1 (bit 3); pin 10 is field 0 of register 1. */
  lemma FuncSelectExamples()
    ensures FuncSelectIndex(11) == 1 && FuncSelectShift(11) == 3
    ensures FuncSelectIndex(10) == 1 && FuncSelectShift(10) == 0
  {
  }

  /** The 3-bit function-select field uses the same mask as a generic field of width 3. */
  lemma FuncSelectMask()
    ensures FieldMask(3) == 7
  {
  }

  // ---------------------------------------------------------------------------
  // Bus trace

  /** One access to the GPIO registers, or a settle delay, in program order. */
  datatype Access =
    | ReadWord(addr: u32)
    | WriteWord(addr: u32, val: bv32)
    | ReadFuncSelect(index: nat)
    | WriteFuncSelect(index: nat, val: bv32)
    | WritePupdEnable(val: bv32)
    | WritePupdClock(index: nat, val: bv32)
    | Wait(units: nat)

  /** The register contents a trace acts on. */
  datatype Regs = Regs(mem: map<u32, bv32>, funcSelect: seq<bv32>, pupdEnable: bv32, pupdClocks: seq<bv32>)

  /** mmio_read: a word the map does not hold reads as zero. */
  function Read(mem: map<u32, bv32>, addr: u32): bv32 {
    if addr in mem then mem[addr] else 0
  }

  /** The effect of one access: writes change their register, reads and waits nothing. */
  function Step(r: Regs, e: Access): Regs {
    match e
    case WriteWord(a, v) => r.(mem := r.mem[a := v])
    case WriteFuncSelect(i, v) =>
      if i < |r.funcSelect| then r.(funcSelect := r.funcSelect[i := v]) else r
    case WritePupdEnable(v) => r.(pupdEnable := v)
    case WritePupdClock(i, v) =>
      if i < |r.pupdClocks| then r.(pupdClocks := r.pupdClocks[i := v]) else r
    case _ => r
  }

  /** The registers after a trace has been performed, in order. */
  function Replay(r: Regs, t: seq<Access>): Regs
    decreases |t|
  {
    if t == [] then r else Replay(Step(r, t[0]), t[1..])
  }

  /** A read followed by a write has the effect of the write. */
  lemma ReplayReadWrite(r: Regs, rd: Access, wr: Access)
    requires rd.ReadWord? || rd.ReadFuncSelect?
    ensures Replay(r, [rd, wr]) == Step(r, wr)
  {
    assert [rd, wr][1..] == [wr];
    assert Replay(r, [rd, wr]) == Replay(Step(r, rd), [wr]);
    assert Replay(Step(r, rd), [wr]) == Replay(Step(r, wr), [wr][1..]);
  }

  // ---------------------------------------------------------------------------
  // Pull-enable protocol

  /** `1 << (pin_number % 32)`: the pin's bit in its clock-enable register. */
  function PinBit(pinNumber: u8): bv32 {
    AsShiftAmounts(pinNumber % 32, 0);
    (1 as bv32) << ((pinNumber % 32) as bv32)
  }

  /**
   * gpio_pin_enable's six steps, in order. They touch only the pull control and the
   * pin's clock-enable register, and every pause is the settle time.
   */
  function EnableProtocol(pinNumber: u8): (t: seq<Access>)
    ensures |t| == 6
    ensures forall k :: 0 <= k < |t| ==>
              t[k].WritePupdEnable? || t[k] == Wait(PUPD_DELAY) ||
              (t[k].WritePupdClock? && t[k].index == pinNumber / 32)
    ensures t[|t| - 2] == WritePupdEnable(0) && t[|t| - 1] == WritePupdClock(pinNumber / 32, 0)
  {
    [ WritePupdEnable(0),
      Wait(PUPD_DELAY),
      WritePupdClock(pinNumber / 32, PinBit(pinNumber)),
      Wait(PUPD_DELAY),
      WritePupdEnable(0),
      WritePupdClock(pinNumber / 32, 0) ]
  }

  /**
   * The protocol asserts the clock of exactly one pin, the one asked for, once, after
   * a wait that follows clearing the pull control, and is followed by a wait before
   * the control and the clock are cleared again.
   */
  lemma EnableProtocolAssertsOnlyThePin(pinNumber: u8, k: nat, j: int)
    requires k < |EnableProtocol(pinNumber)| && 0 <= j < 32
    requires EnableProtocol(pinNumber)[k].WritePupdClock? && EnableProtocol(pinNumber)[k].val != 0
    ensures k == 2 && EnableProtocol(pinNumber)[k].index == pinNumber / 32
    ensures Bit(EnableProtocol(pinNumber)[k].val, j) <==> j == pinNumber % 32
    ensures EnableProtocol(pinNumber)[k - 1] == Wait(PUPD_DELAY) && EnableProtocol(pinNumber)[k + 1] == Wait(PUPD_DELAY)
    ensures forall m :: 0 <= m < |EnableProtocol(pinNumber)| && EnableProtocol(pinNumber)[m].WritePupdEnable? ==>
              EnableProtocol(pinNumber)[m].val == PULL_NONE
  {
    var t := EnableProtocol(pinNumber);
    AsShiftAmounts(pinNumber % 32, 0);
    AsShiftAmounts(j, 0);
    BvBelow((pinNumber % 32) as bv32, 32);
    BvBelow(j as bv32, 32);
    Registers.SingleBit((pinNumber % 32) as bv32, j as bv32);
    if j as bv32 == (pinNumber % 32) as bv32 {
      assert j == pinNumber % 32;
    }
  }

  /** For pin 5 the protocol clocks bit 5 of the first clock-enable register. */
  lemma EnableProtocolExample()
    ensures EnableProtocol(5)[2] == WritePupdClock(0, 32)
  {
  }

  /** Performing the protocol leaves the pull control and the pin's clock register zero. */
  lemma EnableProtocolEffect(r: Regs, pinNumber: u8)
    requires pinNumber / 32 < |r.pupdClocks|
    ensures Replay(r, EnableProtocol(pinNumber))
            == r.(pupdEnable := 0, pupdClocks := r.pupdClocks[pinNumber / 32 := 0])
  {
    var t := EnableProtocol(pinNumber);
    var i := pinNumber / 32;
    var r1 := Step(r, t[0]);
    var r3 := Step(Step(r1, t[1]), t[2]);
    var r5 := Step(Step(r3, t[3]), t[4]);
    assert Replay(r, t) == Replay(r1, t[1..]);
    assert Replay(r1, t[1..]) == Replay(r3, t[3..]);
    assert Replay(r3, t[3..]) == Replay(r5, t[5..]);
    assert Replay(r5, t[5..]) == Step(r5, t[5]);
    assert r3.pupdClocks == r.pupdClocks[i := t[2].val];
    assert r5.pupdClocks[i := 0] == r.pupdClocks[i := 0];
  }

  // ---------------------------------------------------------------------------
  // The GPIO peripheral

  class Peripheral {
    /** The memory-mapped words reached through mmio_read and mmio_write. */
    var mem: map<u32, bv32>
    /** REGS_GPIO->func_select[]. */
    const funcSelect: array<bv32>
    /** REGS_GPIO->pupd_enable. */
    var pupdEnable: bv32
    /** REGS_GPIO->pupd_enable_clocks[]. */
    const pupdClocks: array<bv32>
    /** Every register access and delay so far, oldest first. */
    var trace: seq<Access>

    ghost predicate Valid()
      reads this
    {
      funcSelect != pupdClocks
    }

    ghost function State(): Regs
      reads this, funcSelect, pupdClocks
    {
      Regs(mem, funcSelect[..], pupdEnable, pupdClocks[..])
    }

    constructor (mem0: map<u32, bv32>, funcSelect0: seq<bv32>, pupdEnable0: bv32, pupdClocks0: seq<bv32>)
      ensures Valid() && fresh(funcSelect) && fresh(pupdClocks)
      ensures State() == Regs(mem0, funcSelect0, pupdEnable0, pupdClocks0) && trace == []
    {
      mem := mem0;
      funcSelect := new bv32[|funcSelect0|](i requires 0 <= i < |funcSelect0| => funcSelect0[i]);
      pupdEnable := pupdEnable0;
      pupdClocks := new bv32[|pupdClocks0|](i requires 0 <= i < |pupdClocks0| => pupdClocks0[i]);
      trace := [];
    }

    /** mmio_read. */
    method MmioRead(reg: u32) returns (val: bv32)
      modifies this`trace
      ensures val == Read(mem, reg) && trace == old(trace) + [ReadWord(reg)]
    {
      val := Read(mem, reg);
      trace := trace + [ReadWord(reg)];
    }

    /** mmio_write. */
    method MmioWrite(reg: u32, val: bv32)
      modifies this`mem, this`trace
      ensures mem == old(mem)[reg := val] && trace == old(trace) + [WriteWord(reg, val)]
    {
      mem := mem[reg := val];
      trace := trace + [WriteWord(reg, val)];
    }

    /** delay. */
    method Delay(units: nat)
      modifies this`trace
      ensures trace == old(trace) + [Wait(units)]
    {
      trace := trace + [Wait(units)];
    }

    /**
     * gpio_call: writes `value` into the `fieldSize`-bit field of `pinNumber` in the
     * register bank at `base`, after checking the pin against `fieldMax` and the value
     * against the field's width.
     */
    method GpioCall(pinNumber: u32, value: bv32, base: u32, fieldSize: u32, fieldMax: u32) returns (r: u32)
      requires Valid() && ValidFieldSize(fieldSize)
      modifies this`mem, this`trace
      ensures r == (if pinNumber <= fieldMax && value <= FieldMask(fieldSize) then 1 else 0)
      ensures r == 0 ==> mem == old(mem) && trace == old(trace)
      ensures r == 1 ==>
        var a, s := WordAddress(base, pinNumber, fieldSize), FieldShift(pinNumber, fieldSize);
        && mem == old(mem)[a := InsertField(Read(old(mem), a), value, fieldSize, s)]
        && trace == old(trace) + [ReadWord(a), WriteWord(a, mem[a])]
        && FieldValue(mem[a], fieldSize, s) == value
        && OutsideField(mem[a], fieldSize, s) == OutsideField(Read(old(mem), a), fieldSize, s)
      ensures forall b: u32 :: b != WordAddress(base, pinNumber, fieldSize) ==> Read(mem, b) == Read(old(mem), b)
      ensures State() == Replay(old(State()), trace[|old(trace)|..])
      ensures Valid()
    {
      var fieldMask := FieldMask(fieldSize);
      if pinNumber > fieldMax {
        assert trace[|old(trace)|..] == [];
        return 0;
      }
      if value > fieldMask {
        assert trace[|old(trace)|..] == [];
        return 0;
      }
      var reg := WordAddress(base, pinNumber, fieldSize);
      var shift := FieldShift(pinNumber, fieldSize);
      ghost var before := State();
      var curval := MmioRead(reg);
      ghost var read := curval;
      curval := ClearBits(curval, fieldMask, shift);
      curval := OrBits(curval, value, shift);
      ReadModifyWrite(read, value, fieldSize, shift);
      MmioWrite(reg, curval);
      r := 1;
      assert trace[|old(trace)|..] == [ReadWord(reg), WriteWord(reg, curval)];
      ReplayReadWrite(before, ReadWord(reg), WriteWord(reg, curval));
    }

    /** gpio_set: one bit per pin in the GPSET registers. */
    method Set(pinNumber: u32, value: bv32) returns (r: u32)
      requires Valid()
      modifies this`mem, this`trace
      ensures r == (if pinNumber <= GPIO_MAX_PIN && value <= 1 then 1 else 0)
      ensures r == 0 ==> mem == old(mem) && trace == old(trace)
      ensures Valid()
      ensures r == 1 ==>
        var a := GPSET0 + (pinNumber / 32) * 4;
        && mem == old(mem)[a := InsertField(Read(old(mem), a), value, 1, pinNumber % 32)]
        && trace == old(trace) + [ReadWord(a), WriteWord(a, mem[a])]
      ensures State() == Replay(old(State()), trace[|old(trace)|..])
    {
      r := GpioCall(pinNumber, value, GPSET0, 1, GPIO_MAX_PIN);
    }

    /** gpio_clear: one bit per pin in the GPCLR registers. */
    method Clear(pinNumber: u32, value: bv32) returns (r: u32)
      requires Valid()
      modifies this`mem, this`trace
      ensures r == (if pinNumber <= GPIO_MAX_PIN && value <= 1 then 1 else 0)
      ensures r == 0 ==> mem == old(mem) && trace == old(trace)
      ensures Valid()
      ensures r == 1 ==>
        var a := GPCLR0 + (pinNumber / 32) * 4;
        && mem == old(mem)[a := InsertField(Read(old(mem), a), value, 1, pinNumber % 32)]
        && trace == old(trace) + [ReadWord(a), WriteWord(a, mem[a])]
      ensures State() == Replay(old(State()), trace[|old(trace)|..])
    {
      r := GpioCall(pinNumber, value, GPCLR0, 1, GPIO_MAX_PIN);
    }

    /** gpio_pull: two bits per pin, sixteen pins per GPPUPPDN register. */
    method Pull(pinNumber: u32, value: bv32) returns (r: u32)
      requires Valid()
      modifies this`mem, this`trace
      ensures r == (if pinNumber <= GPIO_MAX_PIN && value <= 3 then 1 else 0)
      ensures r == 0 ==> mem == old(mem) && trace == old(trace)
      ensures Valid()
      ensures r == 1 ==>
        var a := GPPUPPDN0 + (pinNumber / 16) * 4;
        && mem == old(mem)[a := InsertField(Read(old(mem), a), value, 2, (pinNumber % 16) * 2)]
        && trace == old(trace) + [ReadWord(a), WriteWord(a, mem[a])]
      ensures State() == Replay(old(State()), trace[|old(trace)|..])
    {
      r := GpioCall(pinNumber, value, GPPUPPDN0, 2, GPIO_MAX_PIN);
    }

    /**
     * gpio_setPinOutputBool: drives the pin high through GPSET when `onOrOff` is
     * nonzero and low through GPCLR otherwise; a pin above 53 changes nothing.
     */
    method SetPinOutputBool(pinNumber: u8, onOrOff: u32)
      requires Valid()
      modifies this`mem, this`trace
      ensures pinNumber > GPIO_MAX_PIN ==> mem == old(mem) && trace == old(trace)
      ensures pinNumber <= GPIO_MAX_PIN ==>
        var a := (if onOrOff != 0 then GPSET0 else GPCLR0) + (pinNumber / 32) * 4;
        && mem == old(mem)[a := InsertField(Read(old(mem), a), 1, 1, pinNumber % 32)]
        && trace == old(trace) + [ReadWord(a), WriteWord(a, mem[a])]
      ensures State() == Replay(old(State()), trace[|old(trace)|..])
      ensures Valid()
    {
      if onOrOff != 0 {
        var _ := Set(pinNumber, 1);
      } else {
        var _ := Clear(pinNumber, 1);
      }
    }

    /** gpio_pin_set_func: a read-modify-write of the pin's 3-bit func_select field. */
    method PinSetFunc(pinNumber: u8, func: GpioFunc)
      requires Valid() && FuncSelectIndex(pinNumber) < funcSelect.Length
      modifies funcSelect, this`trace
      ensures
        var reg, bitStart := FuncSelectIndex(pinNumber), FuncSelectShift(pinNumber);
        && funcSelect[..] == old(funcSelect[..])[reg := InsertField(old(funcSelect[reg]), func, 3, bitStart)]
        && FieldValue(funcSelect[reg], 3, bitStart) == func
        && OutsideField(funcSelect[reg], 3, bitStart) == OutsideField(old(funcSelect[reg]), 3, bitStart)
        && trace == old(trace) + [ReadFuncSelect(reg), WriteFuncSelect(reg, funcSelect[reg])]
      ensures State() == Replay(old(State()), trace[|old(trace)|..])
      ensures Valid()
    {
      var bitStart := (pinNumber * 3) % 30;
      var reg := pinNumber / 10;
      assert bitStart == FuncSelectShift(pinNumber);
      FieldAsBv(3, bitStart);
      ghost var before := State();
      var selector := funcSelect[reg];
      trace := trace + [ReadFuncSelect(reg)];
      ghost var read := selector;
      selector := ClearBits(selector, 7, bitStart);
      selector := OrBits(selector, func, bitStart);
      FuncSelectMask();
      InsertIsClearThenOr(read, func, 3, bitStart);
      funcSelect[reg] := selector;
      trace := trace + [WriteFuncSelect(reg, selector)];
      InsertFieldReadsBack(old(funcSelect[reg]), func, 3, bitStart);
      assert trace[|old(trace)|..] == [ReadFuncSelect(reg), WriteFuncSelect(reg, selector)];
      ReplayReadWrite(before, ReadFuncSelect(reg), WriteFuncSelect(reg, selector));
    }

    /**
     * gpio_pin_enable: clear the pull control, wait, clock the pin's bit in, wait,
     * then clear the control and the clock register.
     */
    method PinEnable(pinNumber: u8)
      requires Valid() && pinNumber / 32 < pupdClocks.Length
      modifies this`pupdEnable, pupdClocks, this`trace
      ensures trace == old(trace) + EnableProtocol(pinNumber)
      ensures pupdEnable == 0 && pupdClocks[..] == old(pupdClocks[..])[pinNumber / 32 := 0]
      ensures State() == Replay(old(State()), trace[|old(trace)|..])
      ensures Valid()
    {
      ghost var before := State();
      ghost var steps := EnableProtocol(pinNumber);
      var reg := pinNumber / 32;
      pupdEnable := 0;
      trace := trace + [WritePupdEnable(0)];
      Delay(PUPD_DELAY);
      var bit := PinBit(pinNumber);
      pupdClocks[reg] := bit;
      trace := trace + [WritePupdClock(reg, bit)];
      Delay(PUPD_DELAY);
      pupdEnable := 0;
      trace := trace + [WritePupdEnable(0)];
      pupdClocks[reg] := 0;
      trace := trace + [WritePupdClock(reg, 0)];
      assert trace == old(trace) + steps;
      assert trace[|old(trace)|..] == steps;
      assert pupdClocks[..] == before.pupdClocks[reg := 0];
      assert funcSelect[..] == before.funcSelect;
      EnableProtocolEffect(before, pinNumber);
    }
  }
}
