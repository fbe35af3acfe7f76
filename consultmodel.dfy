/**
  The earlier draft of the catalog: its own copy of the three parameter
  kinds' extraction formulas and its own copy of the 59-entry table, behind
  `ConsultModel.get_params`.  The draft is shown to agree with the later
  definition formula by formula and entry by entry.
*/
module DraftModel {
  import opened Params
  import opened Definition

  // ---------------------------------------------------------------------
  // The draft's parameter formulas
  // ---------------------------------------------------------------------

  /** The draft's get_registers: the one register, or MSB then LSB. */
  function DraftRegisters(p: EcuParam): (r: seq<Byte>)
    ensures r == Registers(p)
  {
    if p.Dual? then [p.msb, p.lsb] else [p.register]
  }

  /** The draft's get_unscaled_value: the byte, `(msb << 8) + lsb`, or
      `(b >> bit) & 1`; the same raw value as the later definition's. */
  function DraftUnscaled(p: EcuParam, frame: Frame): (v: nat)
    requires InFrame(p, |frame|)
    ensures v == Unscaled(p, frame)
  {
    if p.Single? then frame[p.register]
    else if p.Dual? then frame[p.msb] * 256 + frame[p.lsb]
    else ShiftRight(frame[p.register], p.bit) % 2
  }

  /** The draft's get_value: `unscaled * scale + offset`, the same physical
      value as the later definition's. */
  function DraftValue(p: EcuParam, frame: Frame): (v: real)
    requires InFrame(p, |frame|)
    ensures v == GetValue(p, frame)
  {
    var raw := DraftUnscaled(p, frame);
    assert Scaled(raw, p.scale, p.offset) == raw as real * p.scale + p.offset;
    raw as real * p.scale + p.offset
  }

  // ---------------------------------------------------------------------
  // The draft's table
  // ---------------------------------------------------------------------

  /** The parameter at position i of the draft table. */
  function DraftEntry(i: nat): EcuParam
    requires i < 59
  {
    match i
    case 0 => Dual("Engine Speed HR", 0x00, 0x01, "RPM", 12.5)
    case 1 => Dual("Engine Speed LR", 0x02, 0x03, "RPM", 8.0)
    case 2 => Dual("MAF Voltage", 0x04, 0x05, "mV", 5.0)
    case 3 => Dual("MAF Voltage RH", 0x04, 0x05, "mV", 5.0)
    case 4 => Single("Coolant Temp", 0x08, "C", offset := -50.0)
    case 5 => Single("O2 Voltage LH", 0x09, "mV", 10.0)
    case 6 => Single("O2 Voltage RH", 0x0A, "mV", 10.0)
    case 7 => Single("Vehicle Speed", 0x0B, "km/h", 2.0)
    case 8 => Single("Battery Voltage", 0x0C, "V", 80.0)
    case 9 => Single("TPS", 0x0D, "%", 20.0)
    case 10 => Single("Fuel Temp", 0x0F, "C", offset := -50.0)
    case 11 => Single("IAT", 0x11, "C", offset := -50.0)
    case 12 => Single("EGT", 0x12, "mV", 20.0)
    case 13 => Dual("Injector Time LH", 0x14, 0x15, "ms", 0.01)
    case 14 => Single("Ignition Timing", 0x16, "deg BTDC", -1.0, 110.0)
    case 15 => Single("AAC Valve", 0x17, "%", 0.5)
    case 16 => Single("AF Alpha LH", 0x1A, "%")
    case 17 => Single("AF Alpha RH", 0x1B, "%")
    case 18 => Single("AF Alpha Selflearn LH", 0x1C, "%")
    case 19 => Single("AF Alpha Selflearn RH", 0x1D, "%")
    case 20 => Dual("Injector Time RH", 0x22, 0x23, "ms", 0.01)
    case 21 => Single("Purge Valve Step", 0x25, "steps")
    case 22 => Single("Tank Fuel Temp", 0x26)
    case 23 => Single("FPCM Voltage", 0x27, "V")
    case 24 => Single("WG Solenoid", 0x28)
    case 25 => Single("Boost Voltage", 0x29, "V")
    case 26 => Single("Engine Mount", 0x2A)
    case 27 => Single("Position Counter", 0x2E)
    case 28 => Single("Fuel Gauge Voltage", 0x2F, "V")
    case 29 => Single("O2 Front B1 Voltage", 0x30, "V")
    case 30 => Single("O2 Front B2 Voltage", 0x31, "V")
    case 31 => Single("Ignition Switch", 0x32)
    case 32 => Single("CAL LD Value", 0x33)
    case 33 => Single("Fuel Schedule", 0x34)
    case 34 => Single("O2 Rear B1 Voltage", 0x35, "V")
    case 35 => Single("O2 Rear B2 Voltage", 0x36, "V")
    case 36 => Single("Throttle Position ABS", 0x37, "%")
    case 37 => Single("MAF Scaled", 0x38, "g/s")
    case 38 => Single("Evap Pressure Voltage", 0x39, "V")
    case 39 => Single("ABS Pressure Voltage A", 0x3A, "V")
    case 40 => Single("ABS Pressure Voltage B", 0x4A, "V")
    case 41 => Single("FPCM Pressure Voltage A", 0x52, "V")
    case 42 => Single("FPCM Pressure Voltage B", 0x53, "V")
    case 43 => Bit("A/C On", 0x13, 4)
    case 44 => Bit("Power Steering", 0x13, 3)
    case 45 => Bit("Park/Neutral", 0x13, 2)
    case 46 => Bit("Cranking", 0x13, 1)
    case 47 => Bit("CLSD/THL POS", 0x13, 0)
    case 48 => Bit("A/C Relay", 0x1E, 7)
    case 49 => Bit("Fuel Pump Relay", 0x1E, 6)
    case 50 => Bit("VTC Solenoid", 0x1E, 5)
    case 51 => Bit("Coolant Fan Hi", 0x1E, 1)
    case 52 => Bit("Coolant Fan Lo", 0x1E, 0)
    case 53 => Bit("P/Reg control valve", 0x1F, 6)
    case 54 => Bit("WG Solenoid", 0x1F, 5)
    case 55 => Bit("IACV FICD Solenoid", 0x1F, 3)
    case 56 => Bit("EGR Solenoid", 0x1F, 0)
    case 57 => Bit("LH Bank Lean", 0x21, 7)
    case _ => Bit("RH Bank Lean", 0x21, 6)
  }

  /** The draft table, in the draft's order. */
  function DraftTable(): (t: seq<EcuParam>)
    ensures |t| == 59
    ensures forall i :: 0 <= i < 59 ==> t[i] == DraftEntry(i)
  {
    seq(59, i requires 0 <= i < 59 => DraftEntry(i))
  }

  /** The draft table is the later definition's table, entry for entry and
      in the same order. */
  lemma DraftTableIsTable()
    ensures DraftTable() == Table()
  {
    DraftEntriesLow();
    DraftEntriesHigh();
  }

  lemma DraftEntriesLow()
    ensures forall i :: 0 <= i < 30 ==> DraftEntry(i) == Entry(i)
  {
  }

  lemma DraftEntriesHigh()
    ensures forall i :: 30 <= i < 59 ==> DraftEntry(i) == Entry(i)
  {
  }

  // ---------------------------------------------------------------------
  // ConsultModel
  // ---------------------------------------------------------------------

  class ConsultModel {
    const params: seq<ParamEntry>

    /** One parameter object per draft entry, in order, no object shared. */
    ghost predicate Valid()
    {
      && |params| == |DraftTable()|
      && (forall i :: 0 <= i < |params| ==> params[i].param == DraftTable()[i])
      && (forall i, j :: 0 <= i < j < |params| ==> params[i] != params[j])
    }

    /** Builds the draft table with every parameter disabled. */
    constructor ()
      ensures Valid()
      ensures forall i :: 0 <= i < |params| ==> fresh(params[i]) && !params[i].enabled
    {
      var table := DraftTable();
      var ps: seq<ParamEntry> := [];
      var i := 0;
      while i < |table|
        invariant 0 <= i <= |table| && |ps| == i
        invariant forall k :: 0 <= k < i ==> ps[k].param == table[k] && fresh(ps[k]) && !ps[k].enabled
        invariant forall k, l :: 0 <= k < l < i ==> ps[k] != ps[l]
      {
        var entry := new ParamEntry(table[i]);
        ps := ps + [entry];
        i := i + 1;
      }
      params := ps;
    }

    /** get_params: the parameter objects of the table of the later
        definition, in its order, and the same objects on every call. */
    function GetParams(): (ps: seq<ParamEntry>)
      requires Valid()
      ensures |ps| == |Table()|
      ensures forall i :: 0 <= i < |ps| ==> ps[i].param == Table()[i]
      ensures forall i, j :: 0 <= i < j < |ps| ==> ps[i] != ps[j]
    {
      DraftTableIsTable();
      params
    }
  }

  /** The options tab enabling a parameter through get_params: the flag set
      on the returned object is what every later get_params caller sees, and
      no other flag moves. */
  method EnableThroughGetParams(model: ConsultModel, i: nat, state: bool)
    requires model.Valid() && i < |model.GetParams()|
    modifies model.GetParams()[i]
    ensures model.GetParams()[i].enabled == state
    ensures forall j :: 0 <= j < |model.GetParams()| && j != i ==>
      model.GetParams()[j].enabled == old(model.GetParams()[j].enabled)
  {
    var ps := model.GetParams();
    ps[i].Enable(state);
  }
}
