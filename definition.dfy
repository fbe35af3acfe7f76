/**
  The Consult register catalog: the protocol constants, the fixed table of
  59 parameters in definition order, the lookup of a parameter by its
  canonical register, and the catalog object whose queries report the
  parameters whose `enabled` flag is set.
*/
module Definition {
  import opened Wrappers
  import opened Params

  /** Initialisation marker sent to the ECU. */
  const Init: seq<Byte> := [0xFF, 0xFF, 0xEF]
  /** The ECU's acknowledgement of Init. */
  const InitResponse: Byte := 0x10
  /** Prefixed before every requested register in a command. */
  const RegisterParam: Byte := 0x5A
  /** Terminates a register request and starts the stream. */
  const StartStream: Byte := 0xF0
  /** Stops the stream. */
  const StopStream: Byte := 0x30
  /** The ECU's acknowledgement of StopStream. */
  const StopAck: Byte := 0xCF

  /** The parameter at position i of the table. */
  function Entry(i: nat): EcuParam
    requires i < 59
  {
    match i
    case 0 => Dual("Engine Speed HR", 0x00, 0x01, "RPM", 12.5)
    case 1 => Dual("Engine Speed LR", 0x02, 0x03, "RPM", 8.0)
    case 2 => Dual("MAF Voltage", 0x04, 0x05, "mV", 5.0)
    case 3 => Dual("MAF Voltage RH", 0x04, 0x05, "mV", 5.0)
    case 4 => Single("Coolant Temp", 0x08, "C", offset := -50.0)
    case 5 => Single("O2 Voltage LH", 0x09, "mV", 10.0)
    case 6 => Single("O2 Voltage RH", 0x0A, "mV", 10.0)
    case 7 => Single("Vehicle Speed", 0x0B, "km/h", 2.0)
    case 8 => Single("Battery Voltage", 0x0C, "V", 80.0)
    case 9 => Single("TPS", 0x0D, "%", 20.0)
    case 10 => Single("Fuel Temp", 0x0F, "C", offset := -50.0)
    case 11 => Single("IAT", 0x11, "C", offset := -50.0)
    case 12 => Single("EGT", 0x12, "mV", 20.0)
    case 13 => Dual("Injector Time LH", 0x14, 0x15, "ms", 0.01)
    case 14 => Single("Ignition Timing", 0x16, "deg BTDC", -1.0, 110.0)
    case 15 => Single("AAC Valve", 0x17, "%", 0.5)
    case 16 => Single("AF Alpha LH", 0x1A, "%")
    case 17 => Single("AF Alpha RH", 0x1B, "%")
    case 18 => Single("AF Alpha Selflearn LH", 0x1C, "%")
    case 19 => Single("AF Alpha Selflearn RH", 0x1D, "%")
    case 20 => Dual("Injector Time RH", 0x22, 0x23, "ms", 0.01)
    case 21 => Single("Purge Valve Step", 0x25, "steps")
    case 22 => Single("Tank Fuel Temp", 0x26)
    case 23 => Single("FPCM Voltage", 0x27, "V")
    case 24 => Single("WG Solenoid", 0x28)
    case 25 => Single("Boost Voltage", 0x29, "V")
    case 26 => Single("Engine Mount", 0x2A)
    case 27 => Single("Position Counter", 0x2E)
    case 28 => Single("Fuel Gauge Voltage", 0x2F, "V")
    case 29 => Single("O2 Front B1 Voltage", 0x30, "V")
    case 30 => Single("O2 Front B2 Voltage", 0x31, "V")
    case 31 => Single("Ignition Switch", 0x32)
    case 32 => Single("CAL LD Value", 0x33)
    case 33 => Single("Fuel Schedule", 0x34)
    case 34 => Single("O2 Rear B1 Voltage", 0x35, "V")
    case 35 => Single("O2 Rear B2 Voltage", 0x36, "V")
    case 36 => Single("Throttle Position ABS", 0x37, "%")
    case 37 => Single("MAF Scaled", 0x38, "g/s")
    case 38 => Single("Evap Pressure Voltage", 0x39, "V")
    case 39 => Single("ABS Pressure Voltage A", 0x3A, "V")
    case 40 => Single("ABS Pressure Voltage B", 0x4A, "V")
    case 41 => Single("FPCM Pressure Voltage A", 0x52, "V")
    case 42 => Single("FPCM Pressure Voltage B", 0x53, "V")
    case 43 => Bit("A/C On", 0x13, 4)
    case 44 => Bit("Power Steering", 0x13, 3)
    case 45 => Bit("Park/Neutral", 0x13, 2)
    case 46 => Bit("Cranking", 0x13, 1)
    case 47 => Bit("CLSD/THL POS", 0x13, 0)
    case 48 => Bit("A/C Relay", 0x1E, 7)
    case 49 => Bit("Fuel Pump Relay", 0x1E, 6)
    case 50 => Bit("VTC Solenoid", 0x1E, 5)
    case 51 => Bit("Coolant Fan Hi", 0x1E, 1)
    case 52 => Bit("Coolant Fan Lo", 0x1E, 0)
    case 53 => Bit("P/Reg control valve", 0x1F, 6)
    case 54 => Bit("WG Solenoid", 0x1F, 5)
    case 55 => Bit("IACV FICD Solenoid", 0x1F, 3)
    case 56 => Bit("EGR Solenoid", 0x1F, 0)
    case 57 => Bit("LH Bank Lean", 0x21, 7)
    case _ => Bit("RH Bank Lean", 0x21, 6)
  }

  /** The parameter table, in definition order. */
  function Table(): (t: seq<EcuParam>)
    ensures |t| == 59
    ensures forall i :: 0 <= i < 59 ==> t[i] == Entry(i)
  {
    seq(59, i requires 0 <= i < 59 => Entry(i))
  }

  // ---------------------------------------------------------------------
  // Properties of the table
  // ---------------------------------------------------------------------

  /** Every register address is at most 0x53 and every bit index is a bit
      of a byte. */
  predicate WellAddressed(p: EcuParam)
  {
    match p
    case Single(_, r, _, _, _) => r <= 0x53
    case Dual(_, m, l, _, _, _) => m <= 0x53 && l <= 0x53
    case Bit(_, r, b, _, _, _) => r <= 0x53 && b < 8
  }

  /** Every entry is well addressed, so any frame of at least 0x54 bytes
      holds the registers of every entry. */
  lemma TableAddressBounds()
    ensures forall i :: 0 <= i < |Table()| ==> WellAddressed(Table()[i])
    ensures forall i, n :: 0 <= i < |Table()| && n >= 0x54 ==> InFrame(Table()[i], n)
  {
    EntriesWellAddressed();
    forall i, n | 0 <= i < 59 && n >= 0x54 ensures InFrame(Entry(i), n) {
      WellAddressedInFrame(Entry(i), n);
    }
  }

  lemma EntriesWellAddressed()
    ensures forall i :: 0 <= i < 59 ==> WellAddressed(Entry(i))
  {
  }

  lemma WellAddressedInFrame(p: EcuParam, n: int)
    requires WellAddressed(p) && n >= 0x54
    ensures InFrame(p, n)
  {
  }

  /** In every Dual entry the LSB register directly follows the MSB register. */
  lemma DualRegistersAdjacent()
    ensures forall i :: 0 <= i < |Table()| && Table()[i].Dual? ==> Table()[i].lsb == Table()[i].msb + 1
  {
    forall i | 0 <= i < 59 && Entry(i).Dual? ensures Entry(i).lsb == Entry(i).msb + 1 {}
  }

  /** Neither the register marker nor the start-stream byte is a register
      address of any entry, so both are unambiguous inside a command. */
  lemma MarkersAreNotRegisters()
    ensures forall i :: 0 <= i < |Table()| ==> RegisterParam !in Registers(Table()[i]) && StartStream !in Registers(Table()[i])
  {
    forall i | 0 <= i < 59 ensures RegisterParam !in Registers(Entry(i)) && StartStream !in Registers(Entry(i)) {}
  }

  /** The physical bits a parameter reads: its register bytes and, for a
      Bit, the bit index. */
  datatype AddressKey = AddressKey(registers: seq<Byte>, bit: Option<nat>)

  function Key(p: EcuParam): AddressKey
  {
    AddressKey(Registers(p), if p.Bit? then Some(p.bit) else None)
  }

  /** The canonical register, then the bit in descending order, with "no
      bit" last.  Along the table it grows strictly within the non-bit
      entries (except at the duplicate) and within the bit entries. */
  function Rank(p: EcuParam): int
  {
    match p
    case Single(_, r, _, _, _) => r * 16 + 8
    case Dual(_, _, l, _, _, _) => l * 16 + 8
    case Bit(_, r, b, _, _, _) => r * 16 + 7 - b
  }

  /** Rank depends on the key alone, and orders non-bit entries by their
      canonical register. */
  lemma SameKeySameRank(p: EcuParam, q: EcuParam)
    requires Key(p) == Key(q)
    ensures Rank(p) == Rank(q)
    ensures !p.Bit? ==> Rank(p) == GetRegister(p) * 16 + 8
  {
    assert Registers(p) == Key(p).registers;
    assert Registers(p)[|Registers(p)| - 1] == Registers(q)[|Registers(q)| - 1];
  }

  /** The rank of every entry, in table order. */
  function Ranks(): (rs: seq<int>)
    ensures |rs| == 59
    ensures forall i :: 0 <= i < 59 ==> rs[i] == Rank(Entry(i))
  {
    seq(59, i requires 0 <= i < 59 => Rank(Entry(i)))
  }

  /** The list grows strictly from position k up to position hi; a check
      that unfolds position by position. */
  predicate IncreasingFrom(s: seq<int>, k: nat, hi: nat)
    requires k <= hi < |s|
    decreases hi - k
  {
    k == hi || (s[k] < s[k + 1] && IncreasingFrom(s, k + 1, hi))
  }

  lemma {:induction false} Increasing(s: seq<int>, lo: nat, hi: nat, i: nat, j: nat)
    requires lo <= i < j <= hi < |s|
    requires IncreasingFrom(s, lo, hi)
    ensures s[i] < s[j]
    decreases j - lo
  {
    if lo < i {
      Increasing(s, lo + 1, hi, i, j);
    } else if i + 1 < j {
      Increasing(s, lo + 1, hi, i + 1, j);
    }
  }

  lemma BitEntriesLast()
    ensures forall k :: 0 <= k < 59 ==> (k < 43 <==> !Entry(k).Bit?)
  {
  }

  /** Two checked stretches that meet make one checked stretch. */
  lemma {:induction false} JoinIncreasing(s: seq<int>, a: nat, b: nat, c: nat)
    requires a <= b <= c < |s|
    requires IncreasingFrom(s, a, b) && IncreasingFrom(s, b, c)
    ensures IncreasingFrom(s, a, c)
    decreases b - a
  {
    if a < b {
      JoinIncreasing(s, a + 1, b, c);
    }
  }

  // The table is checked in stretches of at most ten positions.
  lemma RanksDuals() ensures IncreasingFrom(Ranks(), 0, 2) {}
  lemma RanksNonBitA() ensures IncreasingFrom(Ranks(), 3, 13) {}
  lemma RanksNonBitB() ensures IncreasingFrom(Ranks(), 13, 23) {}
  lemma RanksNonBitC() ensures IncreasingFrom(Ranks(), 23, 33) {}
  lemma RanksNonBitD() ensures IncreasingFrom(Ranks(), 33, 42) {}
  lemma RanksBitA() ensures IncreasingFrom(Ranks(), 43, 53) {}
  lemma RanksBitB() ensures IncreasingFrom(Ranks(), 53, 58) {}

  lemma RankChecks()
    ensures IncreasingFrom(Ranks(), 0, 2) && IncreasingFrom(Ranks(), 3, 42) && IncreasingFrom(Ranks(), 43, 58)
  {
    RanksDuals();
    RanksNonBitA();
    RanksNonBitB();
    RanksNonBitC();
    RanksNonBitD();
    JoinIncreasing(Ranks(), 23, 33, 42);
    JoinIncreasing(Ranks(), 13, 23, 42);
    JoinIncreasing(Ranks(), 3, 13, 42);
    RanksBitA();
    RanksBitB();
    JoinIncreasing(Ranks(), 43, 53, 58);
  }

  lemma MafEntriesShareAddress()
    ensures Key(Entry(2)) == Key(Entry(3))
  {
  }

  /** The key comparison for one pair of positions. */
  lemma EntryKeysDiffer(i: nat, j: nat)
    requires i < j < 59
    requires IncreasingFrom(Ranks(), 0, 2) && IncreasingFrom(Ranks(), 3, 42) && IncreasingFrom(Ranks(), 43, 58)
    requires forall k :: 0 <= k < 59 ==> (k < 43 <==> !Entry(k).Bit?)
    requires Key(Entry(2)) == Key(Entry(3))
    ensures Key(Entry(i)) == Key(Entry(j)) <==> i == 2 && j == 3
  {
    if i == 2 && j == 3 {
    } else if j < 43 {
      if j <= 2 {
        Increasing(Ranks(), 0, 2, i, j);
      } else if 3 <= i {
        Increasing(Ranks(), 3, 42, i, j);
      } else if j == 3 {
        Increasing(Ranks(), 0, 2, i, 2);
      } else {
        Increasing(Ranks(), 3, 42, 3, j);
        if i < 2 { Increasing(Ranks(), 0, 2, i, 2); }
      }
      if Key(Entry(i)) == Key(Entry(j)) { SameKeySameRank(Entry(i), Entry(j)); }
    } else if 43 <= i {
      Increasing(Ranks(), 43, 58, i, j);
      if Key(Entry(i)) == Key(Entry(j)) { SameKeySameRank(Entry(i), Entry(j)); }
    } else {
      assert Key(Entry(i)).bit.None? && Key(Entry(j)).bit.Some?;
    }
  }

  /** No two entries read the same physical bits, except the duplicated
      "MAF Voltage" / "MAF Voltage RH" pair at positions 2 and 3. */
  lemma AddressesUniqueExceptMafDuplicate()
    ensures forall i, j :: 0 <= i < j < |Table()| ==>
      (Key(Table()[i]) == Key(Table()[j]) <==> i == 2 && j == 3)
  {
    RankChecks();
    BitEntriesLast();
    MafEntriesShareAddress();
    forall i, j | 0 <= i < j < 59 ensures Key(Table()[i]) == Key(Table()[j]) <==> i == 2 && j == 3 {
      EntryKeysDiffer(i, j);
    }
  }

  // ---------------------------------------------------------------------
  // Lookup by canonical register
  // ---------------------------------------------------------------------

  /** The canonical registers of the catalog, in table order. */
  function CanonicalRegisters(): (rs: seq<Byte>)
    ensures |rs| == 59
    ensures forall i :: 0 <= i < 59 ==> rs[i] == GetRegister(Table()[i])
  {
    var t := Table();
    seq(59, i requires 0 <= i < 59 => GetRegister(t[i]))
  }

  /** The first position, at or after i, at which the register list holds
      r. */
  function FindFrom(rs: seq<Byte>, r: Byte, i: nat): (res: Option<nat>)
    requires i <= |rs|
    ensures res.Some? ==> i <= res.value < |rs| && rs[res.value] == r
    ensures res.Some? ==> forall j :: i <= j < res.value ==> rs[j] != r
    ensures res.None? <==> forall j :: i <= j < |rs| ==> rs[j] != r
    decreases |rs| - i
  {
    if i == |rs| then None
    else if rs[i] == r then Some(i)
    else FindFrom(rs, r, i + 1)
  }

  /** The parameter addressed by canonical register r: the first entry in
      table order whose canonical register is r, so where entries share a
      canonical register the earliest one wins. */
  function LookupByRegister(r: Byte): (res: Option<nat>)
    ensures res.Some? ==> res.value < |Table()| && GetRegister(Table()[res.value]) == r
    ensures res.Some? ==> forall j :: 0 <= j < res.value ==> GetRegister(Table()[j]) != r
    ensures res.None? <==> forall j :: 0 <= j < |Table()| ==> GetRegister(Table()[j]) != r
  {
    FindFrom(CanonicalRegisters(), r, 0)
  }

  /** The MSB registers of the Dual entries. */
  const DualMsbs: set<Byte> := {0x00, 0x02, 0x04, 0x14, 0x22}

  lemma DualMsbsListed()
    ensures forall i :: 0 <= i < 59 && Entry(i).Dual? ==> Entry(i).msb in DualMsbs
  {
  }

  lemma NoCanonicalRegisterIsAnMsb()
    ensures forall i :: 0 <= i < 59 ==> GetRegister(Entry(i)) !in DualMsbs
  {
  }

  /** Looking a Dual entry up by its MSB finds nothing; looking it up by
      its LSB finds an entry whose canonical register is that LSB. */
  lemma DualAddressedByLsbOnly()
    ensures forall i :: 0 <= i < |Table()| && Table()[i].Dual? ==> LookupByRegister(Table()[i].msb).None?
    ensures forall i :: 0 <= i < |Table()| && Table()[i].Dual? ==> LookupByRegister(Table()[i].lsb).Some?
  {
    DualMsbsListed();
    NoCanonicalRegisterIsAnMsb();
    forall i | 0 <= i < 59 && Entry(i).Dual? ensures LookupByRegister(Entry(i).lsb).Some? {
      assert GetRegister(Table()[i]) == Entry(i).lsb;
    }
  }

  /** "MAF Voltage RH" repeats the registers of "MAF Voltage", so a lookup
      of its canonical register 0x05 finds "MAF Voltage". */
  lemma MafRhShadowed()
    ensures GetRegister(Table()[3]) == 0x05
    ensures LookupByRegister(0x05) == Some(2) && Table()[2].name == "MAF Voltage"
  {
    var rs := CanonicalRegisters();
    assert rs[2] == 0x05 && rs[1] != 0x05 && rs[0] != 0x05;
    assert FindFrom(rs, 0x05, 2) == Some(2);
  }

  /** The five bits of register 0x13 ("A/C On" first) all have canonical
      register 0x13 ... */
  lemma AcRegisterBits()
    ensures Entry(43).name == "A/C On" && Entry(43).bit == 4 && Entry(44).bit == 3
    ensures forall j :: 43 <= j < 48 ==> Entry(j).Bit? && GetRegister(Entry(j)) == 0x13
  {
  }

  /** ... and a lookup of 0x13 finds the first of them. */
  lemma AcRegisterResolvesToFirstBit()
    ensures LookupByRegister(0x13) == Some(43)
  {
    NoEarlierAcOn();
    FirstMatchFound(0x13, 43);
  }

  lemma NoEarlierAcOn()
    ensures forall j :: 0 <= j < 43 ==> GetRegister(Entry(j)) != 0x13
  {
  }

  /** A lookup of the canonical register of any catalog entry finds some
      entry. */
  lemma CatalogRegisterFound(p: EcuParam)
    requires p in Table()
    ensures LookupByRegister(GetRegister(p)).Some? && Lookup(GetRegister(p)).Some?
  {
    LookupIsFirstMatch(GetRegister(p));
    var t := Table();
    var i :| 0 <= i < |t| && t[i] == p;
    assert GetRegister(t[i]) == GetRegister(p);
  }

  /** A lookup finds position k exactly when entry k is the first with
      canonical register r. */
  lemma FirstMatchFound(r: Byte, k: nat)
    requires k < 59 && GetRegister(Entry(k)) == r
    requires forall j :: 0 <= j < k ==> GetRegister(Entry(j)) != r
    ensures LookupByRegister(r) == Some(k)
  {
    var res := FindFrom(CanonicalRegisters(), r, 0);
    assert res.Some?;
  }

  /** Engine Speed HR, a Dual at 0x00/0x01: get_register as written has no
      answer for it, while the canonical register is its LSB 0x01. */
  lemma EngineSpeedRegister()
    ensures Table()[0].Dual? && GetRegisterAsWritten(Table()[0]).None?
    ensures GetRegister(Table()[0]) == 0x01 == Table()[0].lsb
  {
  }

  /** Worked values: engine speed bytes 01 F4 are 500 raw, 6250 RPM; a 0x10
      in register 0x13 sets bit 4 ("A/C On") and clears bit 3 ("Power
      Steering"). */
  lemma SampleValues(frame: Frame)
    requires |frame| > 0x13 && frame[0x00] == 0x01 && frame[0x01] == 0xF4 && frame[0x13] == 0x10
    ensures Unscaled(Entry(0), frame) == 500 && GetValue(Entry(0), frame) == 6250.0
    ensures Unscaled(Entry(43), frame) == 1 && Unscaled(Entry(44), frame) == 0
  {
    assert ShiftRight(0x10, 4) == 1;
    assert ShiftRight(0x10, 3) == 2;
  }

  /** A lookup of the parameter's canonical register finds the parameter
      itself. */
  predicate Resolves(p: EcuParam)
  {
    Lookup(GetRegister(p)) == Some(p)
  }

  /** Definition.get_param: the entry a lookup of register r finds, if any,
      searching from position i.  This search hands back the parameter, as
      the codec needs; LookupByRegister runs the same search over the
      register list and hands back the position, which is what the table
      lemmas reason about.  FindParamAgrees shows the two agree. */
  function FindParamFrom(r: Byte, i: nat): (res: Option<EcuParam>)
    requires i <= 59
    ensures res.Some? ==> GetRegister(res.value) == r
    decreases 59 - i
  {
    if i == 59 then None
    else if GetRegister(Entry(i)) == r then Some(Entry(i))
    else FindParamFrom(r, i + 1)
  }

  function Lookup(r: Byte): (res: Option<EcuParam>)
    ensures res.Some? ==> GetRegister(res.value) == r
  {
    FindParamFrom(r, 0)
  }

  /** The search by parameter and the search by position agree. */
  lemma {:induction false} FindParamAgrees(r: Byte, i: nat)
    requires i <= 59
    ensures FindParamFrom(r, i).Some? <==> FindFrom(CanonicalRegisters(), r, i).Some?
    ensures FindParamFrom(r, i).Some? ==> FindParamFrom(r, i).value == Entry(FindFrom(CanonicalRegisters(), r, i).value)
    decreases 59 - i
  {
    if i < 59 && GetRegister(Entry(i)) != r {
      FindParamAgrees(r, i + 1);
    }
  }

  /** A lookup returns the first entry in table order whose canonical
      register is r, and nothing exactly when no entry has that canonical
      register. */
  lemma LookupIsFirstMatch(r: Byte)
    ensures Lookup(r).Some? <==> LookupByRegister(r).Some?
    ensures Lookup(r).Some? ==> Lookup(r).value == Table()[LookupByRegister(r).value]
    ensures Lookup(r).Some? ==> Lookup(r).value in Table()
  {
    FindParamAgrees(r, 0);
  }

  /** Whatever a lookup finds is found again by its own register. */
  lemma LookupResolves(r: Byte)
    requires Lookup(r).Some?
    ensures Resolves(Lookup(r).value)
  {
  }

  /** Canonical registers grow strictly along the non-bit entries, apart
      from the duplicate at positions 2 and 3. */
  lemma {:induction false} NonBitRegistersGrow(j: nat, i: nat)
    requires j < i < 43 && !(j == 2 && i == 3)
    requires IncreasingFrom(Ranks(), 0, 2) && IncreasingFrom(Ranks(), 3, 42)
    requires Key(Entry(2)) == Key(Entry(3))
    requires forall k :: 0 <= k < 59 ==> (k < 43 <==> !Entry(k).Bit?)
    ensures GetRegister(Entry(j)) < GetRegister(Entry(i))
  {
    if i <= 2 {
      Increasing(Ranks(), 0, 2, j, i);
    } else if 3 <= j {
      Increasing(Ranks(), 3, 42, j, i);
    } else {
      if 3 < i { Increasing(Ranks(), 3, 42, 3, i); }
      SameKeySameRank(Entry(2), Entry(3));
      if j < 2 { Increasing(Ranks(), 0, 2, j, 2); }
    }
    SameKeySameRank(Entry(i), Entry(i));
    SameKeySameRank(Entry(j), Entry(j));
  }

  /** Every non-bit entry other than "MAF Voltage RH" is found by a lookup of
      its canonical register. */
  lemma NonBitEntriesResolve()
    ensures forall i :: 0 <= i < 43 && i != 3 ==> Resolves(Table()[i])
  {
    RankChecks();
    BitEntriesLast();
    MafEntriesShareAddress();
    forall i | 0 <= i < 43 && i != 3 ensures Resolves(Table()[i]) {
      forall j | 0 <= j < i ensures GetRegister(Entry(j)) != GetRegister(Entry(i)) {
        NonBitRegistersGrow(j, i);
      }
      FirstMatchFound(GetRegister(Entry(i)), i);
      LookupIsFirstMatch(GetRegister(Entry(i)));
    }
  }

  /** "MAF Voltage RH" is not found by a lookup of its canonical register,
      and neither is "Power Steering", which shares register 0x13 with the
      earlier "A/C On". */
  lemma ShadowedEntriesDoNotResolve()
    ensures !Resolves(Table()[3]) && !Resolves(Table()[44])
  {
    MafRhDoesNotResolve();
    PowerSteeringDoesNotResolve();
  }

  lemma MafRhDoesNotResolve()
    ensures !Resolves(Table()[3])
  {
    var t := Table();
    MafRhShadowed();
    LookupIsFirstMatch(0x05);
    assert Lookup(0x05) == Some(t[2]);
    assert t[2] != t[3] by { assert t[2].name != t[3].name; }
  }

  lemma PowerSteeringDoesNotResolve()
    ensures !Resolves(Table()[44])
  {
    var t := Table();
    AcRegisterBits();
    AcRegisterResolvesToFirstBit();
    LookupIsFirstMatch(0x13);
    assert Lookup(0x13) == Some(t[43]);
    assert t[43] != t[44] by { assert t[43].bit != t[44].bit; }
  }

  /** The register each bit entry reads, by position: five bits of 0x13,
      five of 0x1E, four of 0x1F and two of 0x21. */
  function BitBlockRegister(k: nat): Byte
  {
    if k < 48 then 0x13 else if k < 53 then 0x1E else if k < 57 then 0x1F else 0x21
  }

  lemma BitEntryRegisters()
    ensures forall k :: 43 <= k < 59 ==> GetRegister(Entry(k)) == BitBlockRegister(k)
  {
  }

  /** No non-bit entry reads one of the four bit registers. */
  lemma NonBitRegistersAreNotBitRegisters()
    ensures forall j :: 0 <= j < 43 ==> GetRegister(Entry(j)) !in {0x13, 0x1E, 0x1F, 0x21}
  {
  }

  /** The positions whose entry shares its canonical register with an
      earlier entry: "MAF Voltage RH", and every bit of registers 0x13,
      0x1E, 0x1F and 0x21 after the first. */
  const ShadowedPositions: set<nat> := {3, 44, 45, 46, 47, 49, 50, 51, 52, 54, 55, 56, 58}

  /** An entry is the first with its canonical register exactly when its
      position is not shadowed. */
  lemma FirstForRegister(i: nat)
    requires i < 59
    ensures (forall j :: 0 <= j < i ==> GetRegister(Table()[j]) != GetRegister(Table()[i])) <==> i !in ShadowedPositions
  {
    if i == 3 {
      assert GetRegister(Table()[2]) == GetRegister(Table()[3]);
    } else if i < 43 {
      NonBitFirstForRegister(i);
    } else if i in ShadowedPositions {
      BitEntryRegisters();
      assert GetRegister(Table()[i - 1]) == GetRegister(Table()[i]);
    } else {
      BitFirstForRegister(i);
    }
  }

  lemma NonBitFirstForRegister(i: nat)
    requires i < 43 && i != 3
    ensures forall j :: 0 <= j < i ==> GetRegister(Table()[j]) != GetRegister(Table()[i])
  {
    RankChecks();
    BitEntriesLast();
    MafEntriesShareAddress();
    forall j | 0 <= j < i ensures GetRegister(Table()[j]) != GetRegister(Table()[i]) {
      NonBitRegistersGrow(j, i);
    }
  }

  lemma BitFirstForRegister(i: nat)
    requires 43 <= i < 59 && i !in ShadowedPositions
    ensures forall j :: 0 <= j < i ==> GetRegister(Table()[j]) != GetRegister(Table()[i])
  {
    BitEntryRegisters();
    NonBitRegistersAreNotBitRegisters();
    forall j | 0 <= j < i ensures GetRegister(Table()[j]) != GetRegister(Table()[i]) {
      if j >= 43 {
        assert BitBlockRegister(j) != BitBlockRegister(i);
      }
    }
  }

  /** An entry resolves to itself exactly when no earlier entry has its
      canonical register. */
  lemma ResolvesIffFirst(i: nat)
    requires i < 59
    ensures Resolves(Table()[i]) <==> forall j :: 0 <= j < i ==> GetRegister(Table()[j]) != GetRegister(Table()[i])
  {
    var t := Table();
    var r := GetRegister(t[i]);
    LookupIsFirstMatch(r);
    var k := LookupByRegister(r).value;
    if k < i {
      AddressesUniqueExceptMafDuplicate();
      assert t[k] != t[i] by {
        if k == 2 && i == 3 {
          assert t[2].name != t[3].name;
        } else {
          assert Key(t[k]) != Key(t[i]);
        }
      }
    }
  }

  /** Exactly the 46 entries at unshadowed positions resolve to themselves;
      the 13 at shadowed positions come back from a lookup as an earlier
      entry. */
  lemma ResolvingEntries()
    ensures forall i :: 0 <= i < |Table()| ==> (Resolves(Table()[i]) <==> i !in ShadowedPositions)
  {
    forall i | 0 <= i < 59 ensures Resolves(Table()[i]) <==> i !in ShadowedPositions {
      ResolvesIffFirst(i);
      FirstForRegister(i);
    }
  }

  // ---------------------------------------------------------------------
  // Enabled parameters
  // ---------------------------------------------------------------------

  /** The number of set flags. */
  function CountTrue(flags: seq<bool>): (n: nat)
    ensures n <= |flags|
  {
    if flags == [] then 0
    else CountTrue(flags[..|flags| - 1]) + if flags[|flags| - 1] then 1 else 0
  }

  /** The positions of the set flags, in ascending order. */
  function Positions(flags: seq<bool>): (ps: seq<nat>)
    ensures |ps| == CountTrue(flags)
    ensures forall k :: 0 <= k < |ps| ==> ps[k] < |flags| && flags[ps[k]]
    ensures forall k, l :: 0 <= k < l < |ps| ==> ps[k] < ps[l]
    ensures forall i :: 0 <= i < |flags| && flags[i] ==> i in ps
  {
    if flags == [] then []
    else
      var n := |flags| - 1;
      var front := Positions(flags[..n]);
      assert forall i :: 0 <= i < n && flags[i] ==> flags[..n][i];
      front + if flags[n] then [n] else []
  }

  /** The elements of xs whose flag is set, in their order in xs. */
  function Select<T>(xs: seq<T>, flags: seq<bool>): (r: seq<T>)
    requires |xs| == |flags|
    ensures |r| == |Positions(flags)|
    ensures forall k :: 0 <= k < |r| ==> r[k] == xs[Positions(flags)[k]]
  {
    if xs == [] then []
    else
      var n := |xs| - 1;
      Select(xs[..n], flags[..n]) + if flags[n] then [xs[n]] else []
  }

  /** Setting one flag changes the count by at most one: not at all when the
      flag already had that value. */
  lemma {:induction false} CountAfterUpdate(flags: seq<bool>, i: nat, state: bool)
    requires i < |flags|
    ensures CountTrue(flags[i := state]) ==
      CountTrue(flags) - (if flags[i] then 1 else 0) + (if state then 1 else 0)
  {
    var n := |flags| - 1;
    var updated := flags[i := state];
    if i < n {
      CountAfterUpdate(flags[..n], i, state);
      assert updated[..n] == flags[..n][i := state];
    } else {
      assert updated[..n] == flags[..n];
    }
  }

  /** The catalog: one parameter object per table entry, in table order.
      Membership never changes; only the objects' flags do. */
  class ConsultDefinition {
    const parameters: seq<ParamEntry>

    ghost predicate Valid()
    {
      && |parameters| == |Table()|
      && (forall i :: 0 <= i < |parameters| ==> parameters[i].param == Table()[i])
      && (forall i, j :: 0 <= i < j < |parameters| ==> parameters[i] != parameters[j])
    }

    /** The flags of the parameters, in table order. */
    function Flags(): (f: seq<bool>)
      reads parameters
      ensures |f| == |parameters|
      ensures forall i :: 0 <= i < |parameters| ==> f[i] == parameters[i].enabled
    {
      seq(|parameters|, i reads parameters requires 0 <= i < |parameters| => parameters[i].enabled)
    }

    /** Builds the table with every parameter disabled. */
    constructor ()
      ensures Valid()
      ensures forall i :: 0 <= i < |parameters| ==> fresh(parameters[i]) && !parameters[i].enabled
    {
      var table := Table();
      var ps: seq<ParamEntry> := [];
      var i := 0;
      while i < |table|
        invariant 0 <= i <= |table| && |ps| == i
        invariant forall k :: 0 <= k < i ==> ps[k].param == table[k] && fresh(ps[k]) && !ps[k].enabled
        invariant forall k, l :: 0 <= k < l < i ==> ps[k] != ps[l]
      {
        var entry := new ParamEntry(table[i]);
        ps := ps + [entry];
        i := i + 1;
      }
      parameters := ps;
    }

    /** All parameters: the table, in definition order. */
    function GetParameters(): (ps: seq<ParamEntry>)
      requires Valid()
      ensures |ps| == 59
      ensures forall i :: 0 <= i < |ps| ==> ps[i].param == Table()[i]
    {
      parameters
    }

    /** Exactly the enabled parameters, in table order. */
    function GetEnabledParameters(): (r: seq<ParamEntry>)
      reads parameters
      ensures |r| == |Positions(Flags())|
      ensures forall k :: 0 <= k < |r| ==> r[k] == parameters[Positions(Flags())[k]]
      ensures forall k :: 0 <= k < |r| ==> r[k].enabled
      ensures forall i :: 0 <= i < |parameters| && parameters[i].enabled ==> parameters[i] in r
    {
      var r := Select(parameters, Flags());
      forall i | 0 <= i < |parameters| && parameters[i].enabled ensures parameters[i] in r {
        var k :| 0 <= k < |Positions(Flags())| && Positions(Flags())[k] == i;
        assert r[k] == parameters[i];
      }
      r
    }

    /** The number of enabled parameters. */
    function CountEnabledParameters(): (n: nat)
      reads parameters
      ensures n == |GetEnabledParameters()|
    {
      CountTrue(Flags())
    }

    /** Sets the flag of the parameter at position i through its object; no
        other parameter changes. */
    method EnableParameter(i: nat, state: bool)
      requires Valid() && i < |parameters|
      modifies parameters[i]
      ensures Valid()
      ensures Flags() == old(Flags())[i := state]
      ensures CountEnabledParameters() ==
        old(CountEnabledParameters()) - (if old(parameters[i].enabled) then 1 else 0) + (if state then 1 else 0)
    {
      parameters[i].Enable(state);
      CountAfterUpdate(old(Flags()), i, state);
    }
  }
}
