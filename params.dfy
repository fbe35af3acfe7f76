/**
  The three kinds of ECU parameter: a value held in one register byte, a
  big-endian 16-bit value held in an MSB and an LSB register, and a single
  bit of one register.  Each kind knows the register bytes it is addressed
  by and how to extract its raw value from a frame of register bytes; the
  physical value is the raw value scaled linearly.
*/
module Params {
  import opened Wrappers

  /** A byte value: a register address, a frame byte or a command byte. */
  type Byte = x: int | 0 <= x < 256

  /** A parameter descriptor.  The constructors' defaults are those of the
      source's subclasses: no unit label, scale 1, offset 0. */
  datatype EcuParam =
    | Single(name: string, register: Byte, unitLabel: string := "", scale: real := 1.0, offset: real := 0.0)
    | Dual(name: string, msb: Byte, lsb: Byte, unitLabel: string := "", scale: real := 1.0, offset: real := 0.0)
    | Bit(name: string, register: Byte, bit: nat, unitLabel: string := "", scale: real := 1.0, offset: real := 0.0)

  /** One streaming sample: the register bytes, indexed by register address. */
  type Frame = seq<Byte>

  /** The register bytes that identify the parameter: MSB then LSB for a
      Dual, the one register otherwise.  The last byte is always the LSB. */
  function Registers(p: EcuParam): (r: seq<Byte>)
    ensures |r| == if p.Dual? then 2 else 1
    ensures p.Dual? ==> r[0] == p.msb && r[1] == p.lsb
    ensures !p.Dual? ==> r[0] == p.register
  {
    match p
    case Single(_, reg, _, _, _) => [reg]
    case Dual(_, m, l, _, _, _) => [m, l]
    case Bit(_, reg, _, _, _, _) => [reg]
  }

  /** The single canonical register of the parameter, the one the wire
      protocol and the catalog index it by: the LSB for a Dual. */
  function GetRegister(p: EcuParam): (r: Byte)
    ensures r in Registers(p)
    ensures r == Registers(p)[|Registers(p)| - 1]
  {
    match p
    case Single(_, reg, _, _, _) => reg
    case Dual(_, _, l, _, _, _) => l
    case Bit(_, reg, _, _, _, _) => reg
  }

  /** get_register as the source writes it: Single and Bit return their
      register, but the Dual body reads a `register` attribute that a Dual
      never sets, so it fails (None here) for every Dual. */
  function GetRegisterAsWritten(p: EcuParam): (r: Option<Byte>)
    ensures r.None? <==> p.Dual?
    ensures r.Some? ==> r.value == GetRegister(p)
  {
    match p
    case Single(_, reg, _, _, _) => Some(reg)
    case Dual(_, _, _, _, _, _) => None
    case Bit(_, reg, _, _, _, _) => Some(reg)
  }

  /** Every register the parameter reads lies inside a frame of length n:
      the source indexes the frame directly, so shorter frames fail. */
  predicate InFrame(p: EcuParam, n: int)
  {
    match p
    case Single(_, reg, _, _, _) => reg < n
    case Dual(_, m, l, _, _, _) => m < n && l < n
    case Bit(_, reg, _, _, _, _) => reg < n
  }

  /** InFrame says exactly that every register byte of the parameter indexes
      into the frame. */
  lemma InFrameCoversRegisters(p: EcuParam, n: int)
    ensures InFrame(p, n) <==> forall b :: b in Registers(p) ==> b < n
  {
    var rs := Registers(p);
    assert rs[0] in rs && rs[|rs| - 1] in rs;
  }

  /** Python's `(hi << 8) + lo` on two bytes: the big-endian 16-bit
      value, whose high and low bytes are hi and lo again. */
  function Combine(hi: Byte, lo: Byte): (v: nat)
    ensures v < 65536
    ensures v / 256 == hi && v % 256 == lo
  {
    hi * 256 + lo
  }

  /** Python's `n >> k` on a non-negative integer: k halvings, each
      rounding down. */
  function ShiftRight(n: nat, k: nat): (r: nat)
    ensures r <= n
  {
    if k == 0 then n else ShiftRight(n / 2, k - 1)
  }

  /** Python's `(b >> bit) & 1`: a shift by 8 or more leaves 0. */
  function BitOf(b: Byte, bit: nat): (v: nat)
    ensures v < 2
  {
    ShiftRight(b, bit) % 2
  }

  /** The binary digits of n, least significant first. */
  function Digits(n: nat): (ds: seq<nat>)
    decreases n
  {
    if n == 0 then [] else [n % 2] + Digits(n / 2)
  }

  /** The number a little-endian list of binary digits denotes. */
  function FromDigits(ds: seq<nat>): nat
  {
    if ds == [] then 0 else ds[0] + 2 * FromDigits(ds[1..])
  }

  /** Digits is a binary expansion: the digits are 0 or 1 and denote n. */
  lemma {:induction false} DigitsDenote(n: nat)
    ensures forall i :: 0 <= i < |Digits(n)| ==> Digits(n)[i] < 2
    ensures FromDigits(Digits(n)) == n
    decreases n
  {
    if n > 0 {
      DigitsDenote(n / 2);
      assert Digits(n)[1..] == Digits(n / 2);
    }
  }

  /** The extracted bit is digit `bit` of the byte's binary expansion, and 0
      past its last digit. */
  lemma {:induction false} BitOfIsBinaryDigit(n: nat, bit: nat)
    requires n < 256
    ensures BitOf(n, bit) == if bit < |Digits(n)| then Digits(n)[bit] else 0
  {
    ShiftIsDigit(n, bit);
  }

  lemma {:induction false} ShiftIsDigit(n: nat, k: nat)
    ensures ShiftRight(n, k) % 2 == if k < |Digits(n)| then Digits(n)[k] else 0
    decreases k
  {
    if n == 0 {
      ShiftOfZero(k);
    } else if k > 0 {
      ShiftIsDigit(n / 2, k - 1);
    }
  }

  lemma {:induction false} ShiftOfZero(k: nat)
    ensures ShiftRight(0, k) == 0
  {
    if k > 0 { ShiftOfZero(k - 1); }
  }

  /** The raw value: the byte, the big-endian combination of MSB and LSB,
      or the addressed bit. */
  function Unscaled(p: EcuParam, frame: Frame): (v: nat)
    requires InFrame(p, |frame|)
    ensures v < match p case Single(_, _, _, _, _) => 256 case Dual(_, _, _, _, _, _) => 65536 case Bit(_, _, _, _, _, _) => 2
    ensures p.Single? ==> v == frame[p.register]
    ensures p.Dual? ==> v / 256 == frame[p.msb] && v % 256 == frame[p.lsb]
    ensures p.Bit? ==> v == BitOf(frame[p.register], p.bit)
  {
    match p
    case Single(_, reg, _, _, _) => frame[reg]
    case Dual(_, m, l, _, _, _) => Combine(frame[m], frame[l])
    case Bit(_, reg, b, _, _, _) => BitOf(frame[reg], b)
  }

  /** The physical value `unscaled * scale + offset`; the raw value is
      recovered from it whenever the scale is not zero, and a zero scale
      leaves only the offset. */
  function GetValue(p: EcuParam, frame: Frame): (v: real)
    requires InFrame(p, |frame|)
    ensures p.scale != 0.0 ==> (v - p.offset) / p.scale == Unscaled(p, frame) as real
    ensures p.scale == 1.0 && p.offset == 0.0 ==> v == Unscaled(p, frame) as real
    ensures p.scale == 0.0 ==> v == p.offset
  {
    Scaled(Unscaled(p, frame), p.scale, p.offset)
  }

  /** `raw * scale + offset`, exactly. */
  function Scaled(raw: nat, scale: real, offset: real): (v: real)
    ensures scale != 0.0 ==> (v - offset) / scale == raw as real
    ensures scale == 1.0 && offset == 0.0 ==> v == raw as real
    ensures scale == 0.0 ==> v == offset
  {
    if scale != 0.0 then
      ScaleCancels(raw as real, scale, offset);
      raw as real * scale + offset
    else
      raw as real * scale + offset
  }

  /** Undoing an offset and a non-zero scale gives back the raw value. */
  lemma ScaleCancels(u: real, scale: real, offset: real)
    requires scale != 0.0
    ensures (u * scale + offset - offset) / scale == u
  {
    var w := u * scale + offset - offset;
    assert w == u * scale;
    calc {
      w / scale;
      (u * scale) / scale;
      u * (scale / scale);
      u;
    }
  }

  /** The mutable part of a parameter object: its `enabled` flag.  The
      descriptor itself never changes. */
  class ParamEntry {
    const param: EcuParam
    var enabled: bool

    /** A new parameter starts disabled. */
    constructor (param: EcuParam)
      ensures this.param == param && !enabled
    {
      this.param := param;
      enabled := false;
    }

    /** Sets the flag and nothing else; enabling twice is enabling once. */
    method Enable(state: bool := true)
      modifies this
      ensures enabled == state
    {
      enabled := state;
    }
  }
}
