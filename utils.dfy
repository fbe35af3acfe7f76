/**
  The command codec: a parameter list becomes the registration command
  `(0x5A reg)* 0xF0`, and a command is read back two bytes at a time into
  the catalog's parameters.  Also the contract of `scan_match`, the marker
  search the mock ECU relies on.
*/
module Utils {
  import opened Wrappers
  import opened Params
  import opened Definition

  /** Why a command could not be read back. */
  datatype CodecError =
    | UnresolvableRegister(register: Byte)   // no catalog entry has this canonical register
    | MalformedWindow(window: seq<Byte>)     // neither `0x5A reg` nor the final `0xF0`

  // ---------------------------------------------------------------------
  // Encoding
  // ---------------------------------------------------------------------

  /** The registration pairs: the marker and the canonical register of each
      parameter, in list order. */
  function Pairs(ps: seq<EcuParam>): (cmd: seq<Byte>)
    ensures |cmd| == 2 * |ps|
  {
    if ps == [] then []
    else Pairs(ps[..|ps| - 1]) + [RegisterParam, GetRegister(ps[|ps| - 1])]
  }

  /** Pair k of the registration pairs is the marker and the canonical
      register of parameter k: the pairs keep the list's order. */
  lemma {:induction false} PairAt(ps: seq<EcuParam>, k: nat)
    requires k < |ps|
    ensures Pairs(ps)[2 * k] == RegisterParam && Pairs(ps)[2 * k + 1] == GetRegister(ps[k])
    decreases |ps|
  {
    var front := ps[..|ps| - 1];
    var pairs := Pairs(front) + [RegisterParam, GetRegister(ps[|ps| - 1])];
    assert Pairs(ps) == pairs;
    if k < |ps| - 1 {
      PairAt(front, k);
      assert pairs[2 * k] == Pairs(front)[2 * k] && pairs[2 * k + 1] == Pairs(front)[2 * k + 1];
    }
  }

  /** The whole command: the pairs, then one start-stream byte. */
  function Command(ps: seq<EcuParam>): (cmd: seq<Byte>)
    ensures |cmd| == 2 * |ps| + 1
    ensures cmd[|cmd| - 1] == StartStream
  {
    Pairs(ps) + [StartStream]
  }

  /** Pair k of the command registers parameter k by its canonical
      register. */
  lemma CommandPair(ps: seq<EcuParam>, k: nat)
    requires k < |ps|
    ensures Command(ps)[2 * k] == RegisterParam && Command(ps)[2 * k + 1] == GetRegister(ps[k])
  {
    var pairs := Pairs(ps);
    PairAt(ps, k);
    assert Command(ps)[2 * k] == pairs[2 * k] && Command(ps)[2 * k + 1] == pairs[2 * k + 1];
  }

  /** A byte list with a registration pair per parameter, in list order,
      and a final start-stream byte is the command of those parameters. */
  lemma CommandIs(ps: seq<EcuParam>, bytes: seq<Byte>)
    requires |bytes| == 2 * |ps| + 1 && bytes[2 * |ps|] == StartStream
    requires forall j :: 0 <= j < |ps| ==> bytes[2 * j] == RegisterParam && bytes[2 * j + 1] == GetRegister(ps[j])
    ensures Command(ps) == bytes
  {
    var cmd := Command(ps);
    forall k | 0 <= k < |bytes| ensures cmd[k] == bytes[k] {
      if k < 2 * |ps| {
        var j := k / 2;
        CommandPair(ps, j);
        assert k == 2 * j || k == 2 * j + 1;
      }
    }
  }

  /** The command holds one registration pair per parameter, in list order. */
  lemma CommandPairs(ps: seq<EcuParam>)
    ensures forall k :: 0 <= k < |ps| ==> Command(ps)[2 * k] == RegisterParam && Command(ps)[2 * k + 1] == GetRegister(ps[k])
  {
    forall k | 0 <= k < |ps|
      ensures Command(ps)[2 * k] == RegisterParam && Command(ps)[2 * k + 1] == GetRegister(ps[k])
    {
      CommandPair(ps, k);
    }
  }

  /** For catalog parameters the start-stream byte occurs once in a
      command, at its end, so it cannot be mistaken for a register. */
  lemma StartStreamOnlyAtEnd(ps: seq<EcuParam>)
    requires forall p :: p in ps ==> p in Table()
    ensures forall k :: 0 <= k < |Command(ps)| && Command(ps)[k] == StartStream ==> k == 2 * |ps|
  {
    var cmd := Command(ps);
    CommandPairs(ps);
    MarkersAreNotRegisters();
    forall k | 0 <= k < 2 * |ps| ensures cmd[k] != StartStream {
      var j := k / 2;
      if k == 2 * j {
        assert cmd[2 * j] == RegisterParam;
      } else {
        assert k == 2 * j + 1;
        assert ps[j] in ps;
        var i :| 0 <= i < |Table()| && Table()[i] == ps[j];
        assert StartStream !in Registers(Table()[i]);
      }
    }
  }

  /** params_to_command, with each parameter contributing its canonical
      register. */
  method ParamsToCommand(params: seq<EcuParam>) returns (cmd: seq<Byte>)
    ensures cmd == Command(params)
  {
    cmd := [];
    var i := 0;
    while i < |params|
      invariant 0 <= i <= |params|
      invariant cmd == Pairs(params[..i])
    {
      ghost var next := params[..i + 1];
      assert next[..|next| - 1] == params[..i] && next[|next| - 1] == params[i];
      assert Pairs(next) == cmd + [RegisterParam, GetRegister(params[i])];
      cmd := cmd + [RegisterParam];
      cmd := cmd + [GetRegister(params[i])];
      i := i + 1;
    }
    assert params[..i] == params;
    cmd := cmd + [StartStream];
  }

  /** The sum over the list of one marker byte plus the parameter's register
      bytes. */
  function WrittenWidth(ps: seq<EcuParam>): nat
  {
    if ps == [] then 0 else WrittenWidth(ps[..|ps| - 1]) + 1 + |Registers(ps[|ps| - 1])|
  }

  /** The pairs as the source appends them: the marker, then every register
      byte of the parameter, so both bytes of a Dual. */
  function PairsAsWritten(ps: seq<EcuParam>): (cmd: seq<Byte>)
    ensures |cmd| == WrittenWidth(ps)
  {
    if ps == [] then []
    else PairsAsWritten(ps[..|ps| - 1]) + [RegisterParam] + Registers(ps[|ps| - 1])
  }

  /** params_to_command as the source writes it. */
  function CommandAsWritten(ps: seq<EcuParam>): (cmd: seq<Byte>)
    ensures |cmd| == 1 + WrittenWidth(ps)
    ensures cmd[|cmd| - 1] == StartStream
  {
    PairsAsWritten(ps) + [StartStream]
  }

  /** Without Dual parameters the source's encoder and the model's agree. */
  lemma AsWrittenAgreesWithoutDuals(ps: seq<EcuParam>)
    requires forall k :: 0 <= k < |ps| ==> !ps[k].Dual?
    ensures CommandAsWritten(ps) == Command(ps)
  {
    PairsAsWrittenWithoutDuals(ps);
  }

  lemma {:induction false} PairsAsWrittenWithoutDuals(ps: seq<EcuParam>)
    requires forall k :: 0 <= k < |ps| ==> !ps[k].Dual?
    ensures PairsAsWritten(ps) == Pairs(ps)
  {
    if ps != [] {
      var n := |ps| - 1;
      var front := ps[..n];
      assert forall k :: 0 <= k < n ==> front[k] == ps[k];
      PairsAsWrittenWithoutDuals(front);
      var last := ps[n];
      assert Registers(last) == [GetRegister(last)];
      calc {
        PairsAsWritten(ps);
        PairsAsWritten(front) + [RegisterParam] + Registers(last);
        Pairs(front) + [RegisterParam] + [GetRegister(last)];
        Pairs(front) + [RegisterParam, GetRegister(last)];
        Pairs(ps);
      }
    }
  }

  // ---------------------------------------------------------------------
  // Decoding
  // ---------------------------------------------------------------------

  // Decoding resolves registers through `Definition.get_param`, whose body
  // is not part of this model: it is the parameter `find` here, and
  // Definition.Lookup, the catalog search, is the instance the concrete
  // lemmas use.

  /** A register lookup that only ever answers with a parameter addressed by
      the register it was asked for. */
  ghost predicate Consistent(find: Byte -> Option<EcuParam>)
  {
    forall r :: find(r).Some? ==> GetRegister(find(r).value) == r
  }

  /** The parameter is what the lookup answers for its own register. */
  ghost predicate FoundBy(find: Byte -> Option<EcuParam>, p: EcuParam)
  {
    find(GetRegister(p)) == Some(p)
  }

  /** One window of a command: `0x5A reg` names what the lookup answers for
      reg, a lone final `0xF0` names no parameter, anything else is an
      error. */
  function ResolveWindow(w: seq<Byte>, find: Byte -> Option<EcuParam>): (r: Result<Option<EcuParam>, CodecError>)
    ensures |w| == 2 && w[0] == RegisterParam ==>
      (r.Ok? <==> find(w[1]).Some?) &&
      (r.Ok? ==> r.value == find(w[1])) &&
      (r.Err? ==> r.error == UnresolvableRegister(w[1]))
    ensures w == [StartStream] ==> r == Ok(None)
    ensures !(|w| == 2 && w[0] == RegisterParam) && w != [StartStream] ==> r == Err(MalformedWindow(w))
  {
    if |w| == 2 && w[0] == RegisterParam then
      match find(w[1])
      case Some(p) => Ok(Some(p))
      case None => Err(UnresolvableRegister(w[1]))
    else if w == [StartStream] then Ok(None)
    else Err(MalformedWindow(w))
  }

  /** The window that starts at position i: two bytes, or one at the end. */
  function Window(cmd: seq<Byte>, i: nat): (w: seq<Byte>)
    requires i < |cmd|
    ensures 1 <= |w| <= 2 && w[0] == cmd[i]
  {
    if i + 2 <= |cmd| then cmd[i..i + 2] else cmd[i..]
  }

  /** The parameters named by the windows from position i on, or the first
      error among them. */
  function DecodeFrom(cmd: seq<Byte>, i: nat, find: Byte -> Option<EcuParam>): (r: Result<seq<EcuParam>, CodecError>)
    ensures r.Ok? ==> 2 * |r.value| <= if i <= |cmd| then |cmd| - i + 1 else 0
    decreases |cmd| - i
  {
    if i >= |cmd| then Ok([])
    else
      match ResolveWindow(Window(cmd, i), find)
      case Err(e) => Err(e)
      case Ok(found) =>
        match DecodeFrom(cmd, i + 2, find)
        case Err(e) => Err(e)
        case Ok(rest) => Ok(ToSeq(found) + rest)
  }

  /** command_to_params: every window, in order; the first error aborts with
      no partial result. */
  function Decode(cmd: seq<Byte>, find: Byte -> Option<EcuParam>): (r: Result<seq<EcuParam>, CodecError>)
    ensures r.Ok? ==> 2 * |r.value| <= |cmd| + 1
  {
    DecodeFrom(cmd, 0, find)
  }

  /** With a consistent lookup, every decoded parameter is what the lookup
      answers for its own register. */
  lemma {:induction false} DecodedParamsFound(cmd: seq<Byte>, i: nat, find: Byte -> Option<EcuParam>)
    requires Consistent(find)
    requires DecodeFrom(cmd, i, find).Ok?
    ensures forall q :: q in DecodeFrom(cmd, i, find).value ==> FoundBy(find, q)
    decreases |cmd| - i
  {
    if i < |cmd| {
      var w := Window(cmd, i);
      DecodedParamsFound(cmd, i + 2, find);
      var found := ResolveWindow(w, find);
      if found.value.Some? {
        assert find(w[1]) == found.value;
      }
    }
  }

  /** The decoded list so far followed by the rest, or the rest's error. */
  function Then(done: seq<EcuParam>, rest: Result<seq<EcuParam>, CodecError>): Result<seq<EcuParam>, CodecError>
  {
    match rest
    case Ok(more) => Ok(done + more)
    case Err(e) => Err(e)
  }

  /** Decoding past one resolved window. */
  lemma DecodeOneWindow(cmd: seq<Byte>, i: nat, find: Byte -> Option<EcuParam>)
    requires i < |cmd| && ResolveWindow(Window(cmd, i), find).Ok?
    ensures DecodeFrom(cmd, i, find) ==
      Then(ToSeq(ResolveWindow(Window(cmd, i), find).value), DecodeFrom(cmd, i + 2, find))
  {
  }

  /** One resolved window moves from the rest of the command to the decoded
      list. */
  lemma DecodeStep(done: seq<EcuParam>, cmd: seq<Byte>, i: nat, find: Byte -> Option<EcuParam>)
    requires i < |cmd| && ResolveWindow(Window(cmd, i), find).Ok?
    ensures Then(done, DecodeFrom(cmd, i, find)) ==
      Then(done + ToSeq(ResolveWindow(Window(cmd, i), find).value), DecodeFrom(cmd, i + 2, find))
  {
    DecodeOneWindow(cmd, i, find);
    match DecodeFrom(cmd, i + 2, find)
    case Ok(more) =>
      var found := ToSeq(ResolveWindow(Window(cmd, i), find).value);
      assert done + (found + more) == done + found + more;
    case Err(_) =>
  }

  /** command_to_params: walks the command in two-byte steps, appending one
      parameter per resolved window and stopping at the first error. */
  method CommandToParams(command: seq<Byte>, find: Byte -> Option<EcuParam>) returns (r: Result<seq<EcuParam>, CodecError>)
    ensures r == Decode(command, find)
  {
    var params: seq<EcuParam> := [];
    var i := 0;
    assert Then(params, DecodeFrom(command, i, find)) == Decode(command, find) by {
      match Decode(command, find)
      case Ok(more) => assert [] + more == more;
      case Err(_) =>
    }
    while i < |command|
      invariant Then(params, DecodeFrom(command, i, find)) == Decode(command, find)
      decreases |command| - i
    {
      var found := ResolveWindow(Window(command, i), find);
      if found.Err? {
        return Err(found.error);
      }
      DecodeStep(params, command, i, find);
      params := params + ToSeq(found.value);
      i := i + 2;
    }
    assert DecodeFrom(command, i, find) == Ok([]);
    assert params + [] == params;
    r := Ok(params);
  }

  // ---------------------------------------------------------------------
  // Round trips
  // ---------------------------------------------------------------------

  /** The windows of a command are its pairs, then the lone start-stream
      byte. */
  lemma WindowsOfCommand(ps: seq<EcuParam>, k: nat)
    requires k <= |ps|
    ensures k < |ps| ==> Window(Command(ps), 2 * k) == [RegisterParam, GetRegister(ps[k])]
    ensures k == |ps| ==> Window(Command(ps), 2 * k) == [StartStream]
  {
    var cmd := Command(ps);
    if k < |ps| {
      CommandPair(ps, k);
    } else {
      assert cmd[2 * k..] == [cmd[2 * k]];
    }
  }

  /** A `0x5A reg` window whose register the lookup resolves contributes
      that parameter ahead of the rest of the decode. */
  lemma DecodePair(cmd: seq<Byte>, i: nat, find: Byte -> Option<EcuParam>)
    requires i + 2 <= |cmd| && cmd[i] == RegisterParam && find(cmd[i + 1]).Some?
    ensures DecodeFrom(cmd, i, find) == Then([find(cmd[i + 1]).value], DecodeFrom(cmd, i + 2, find))
  {
    var w := Window(cmd, i);
    assert w == [RegisterParam, cmd[i + 1]];
    DecodeOneWindow(cmd, i, find);
  }

  /** A lone final start-stream byte decodes to nothing. */
  lemma DecodeLast(cmd: seq<Byte>, find: Byte -> Option<EcuParam>)
    requires |cmd| >= 1 && cmd[|cmd| - 1] == StartStream
    ensures DecodeFrom(cmd, |cmd| - 1, find) == Ok([])
  {
    var w := Window(cmd, |cmd| - 1);
    assert w == [StartStream];
    DecodeOneWindow(cmd, |cmd| - 1, find);
    assert DecodeFrom(cmd, |cmd| + 1, find) == Ok([]);
  }

  /** One pair of an encoded list decodes back to its parameter, ahead of
      what the following pairs decode to. */
  lemma DecodeCommandStep(ps: seq<EcuParam>, k: nat, find: Byte -> Option<EcuParam>)
    requires k < |ps| && FoundBy(find, ps[k])
    requires DecodeFrom(Command(ps), 2 * (k + 1), find) == Ok(ps[k + 1..])
    ensures DecodeFrom(Command(ps), 2 * k, find) == Ok(ps[k..])
  {
    var cmd := Command(ps);
    var here, next := 2 * k, 2 * (k + 1);
    CommandPair(ps, k);
    DecodePair(cmd, here, find);
    assert find(cmd[here + 1]) == Some(ps[k]);
    assert DecodeFrom(cmd, here, find) == Ok([ps[k]] + ps[k + 1..]);
    SliceCons(ps, k);
  }

  lemma SliceCons<T>(xs: seq<T>, k: nat)
    requires k < |xs|
    ensures xs[k..] == [xs[k]] + xs[k + 1..]
  {
  }

  /** The final start-stream byte of a command decodes to nothing. */
  lemma DecodeCommandEnd(ps: seq<EcuParam>, find: Byte -> Option<EcuParam>)
    ensures DecodeFrom(Command(ps), 2 * |ps|, find) == Ok(ps[|ps|..])
  {
    DecodeLast(Command(ps), find);
    assert ps[|ps|..] == [];
  }

  lemma {:induction false} DecodeCommandFrom(ps: seq<EcuParam>, k: nat, find: Byte -> Option<EcuParam>)
    requires k <= |ps|
    requires forall j :: 0 <= j < |ps| ==> FoundBy(find, ps[j])
    ensures DecodeFrom(Command(ps), 2 * k, find) == Ok(ps[k..])
    decreases |ps| - k
  {
    if k == |ps| {
      DecodeCommandEnd(ps, find);
    } else {
      assert FoundBy(find, ps[k]);
      DecodeCommandFrom(ps, k + 1, find);
      DecodeCommandStep(ps, k, find);
    }
  }

  /** Decoding an encoded list gives the list back, in order, when every
      parameter is what the lookup answers for its register. */
  lemma RoundTrip(ps: seq<EcuParam>, find: Byte -> Option<EcuParam>)
    requires forall j :: 0 <= j < |ps| ==> FoundBy(find, ps[j])
    ensures Decode(Command(ps), find) == Ok(ps)
  {
    DecodeCommandFrom(ps, 0, find);
    assert ps[0..] == ps;
  }

  /** Decoding is a projection: with a consistent lookup, what a decode
      returns encodes and decodes to itself. */
  lemma DecodeIsIdempotent(cmd: seq<Byte>, find: Byte -> Option<EcuParam>)
    requires Consistent(find)
    requires Decode(cmd, find).Ok?
    ensures Decode(Command(Decode(cmd, find).value), find) == Decode(cmd, find)
  {
    var ps := Decode(cmd, find).value;
    DecodedParamsFound(cmd, 0, find);
    forall j | 0 <= j < |ps| ensures FoundBy(find, ps[j]) {
      assert ps[j] in ps;
    }
    RoundTrip(ps, find);
  }

  /** Two lists of parameters of one length, addressed position by position
      by the same canonical registers. */
  ghost predicate SameRegisters(qs: seq<EcuParam>, ps: seq<EcuParam>)
  {
    |qs| == |ps| && forall j :: 0 <= j < |ps| ==> GetRegister(qs[j]) == GetRegister(ps[j])
  }

  /** One pair of an encoded list decodes to a parameter with the pair's
      register, ahead of what the following pairs decode to. */
  lemma DecodeCommandRegistersStep(ps: seq<EcuParam>, k: nat, find: Byte -> Option<EcuParam>)
    requires Consistent(find)
    requires k < |ps| && find(GetRegister(ps[k])).Some?
    requires DecodeFrom(Command(ps), 2 * (k + 1), find).Ok?
    requires SameRegisters(DecodeFrom(Command(ps), 2 * (k + 1), find).value, ps[k + 1..])
    ensures DecodeFrom(Command(ps), 2 * k, find).Ok?
    ensures SameRegisters(DecodeFrom(Command(ps), 2 * k, find).value, ps[k..])
  {
    var cmd := Command(ps);
    var here, next := 2 * k, 2 * (k + 1);
    CommandPair(ps, k);
    DecodePair(cmd, here, find);
    var q := find(cmd[here + 1]).value;
    var rest := DecodeFrom(cmd, next, find).value;
    assert DecodeFrom(cmd, here, find) == Ok([q] + rest);
    SameRegistersCons(q, rest, ps, k);
  }

  /** Prepending parameters with equal registers keeps two lists
      register-equal. */
  lemma SameRegistersCons(q: EcuParam, rest: seq<EcuParam>, ps: seq<EcuParam>, k: nat)
    requires k < |ps| && GetRegister(q) == GetRegister(ps[k])
    requires SameRegisters(rest, ps[k + 1..])
    ensures SameRegisters([q] + rest, ps[k..])
  {
    var qs, tail := [q] + rest, ps[k..];
    forall j | 0 <= j < |tail| ensures GetRegister(qs[j]) == GetRegister(tail[j]) {
      if j > 0 {
        assert qs[j] == rest[j - 1] && tail[j] == ps[k + 1..][j - 1];
      }
    }
  }

  lemma {:induction false} DecodeCommandRegistersFrom(ps: seq<EcuParam>, k: nat, find: Byte -> Option<EcuParam>)
    requires Consistent(find)
    requires k <= |ps|
    requires forall j :: 0 <= j < |ps| ==> find(GetRegister(ps[j])).Some?
    ensures DecodeFrom(Command(ps), 2 * k, find).Ok?
    ensures SameRegisters(DecodeFrom(Command(ps), 2 * k, find).value, ps[k..])
    decreases |ps| - k
  {
    if k == |ps| {
      DecodeLast(Command(ps), find);
    } else {
      assert find(GetRegister(ps[k])).Some?;
      DecodeCommandRegistersFrom(ps, k + 1, find);
      DecodeCommandRegistersStep(ps, k, find);
    }
  }

  /** Any list of catalog entries survives a round trip through the catalog
      up to the canonical register: the same number of parameters, in the
      same order, each addressed by the same register (a shadowed entry comes
      back as the entry that shadows it). */
  lemma RoundTripRegisters(ps: seq<EcuParam>)
    requires forall p :: p in ps ==> p in Table()
    ensures Decode(Command(ps), Lookup).Ok?
    ensures |Decode(Command(ps), Lookup).value| == |ps|
    ensures forall j :: 0 <= j < |ps| ==> GetRegister(Decode(Command(ps), Lookup).value[j]) == GetRegister(ps[j])
  {
    CatalogListFound(ps);
    CatalogLookupConsistent();
    DecodeCommandRegistersFrom(ps, 0, Lookup);
    assert ps[0..] == ps;
  }

  lemma CatalogListFound(ps: seq<EcuParam>)
    requires forall p :: p in ps ==> p in Table()
    ensures forall j :: 0 <= j < |ps| ==> Lookup(GetRegister(ps[j])).Some?
  {
    forall j | 0 <= j < |ps| ensures Lookup(GetRegister(ps[j])).Some? {
      assert ps[j] in ps;
      CatalogRegisterFound(ps[j]);
    }
  }

  /** The catalog search is a consistent lookup, and the parameters it finds
      for their own register are exactly the resolving ones. */
  lemma CatalogLookupConsistent()
    ensures Consistent(Lookup)
    ensures forall p :: FoundBy(Lookup, p) <==> Resolves(p)
  {
  }

  /** A list of catalog entries, given by their table positions, decodes
      back exactly when no position is shadowed: the 46 unshadowed entries
      round-trip, and a list holding a shadowed entry does not. */
  lemma CatalogRoundTrip(ps: seq<EcuParam>, positions: seq<nat>)
    requires |positions| == |ps|
    requires forall k :: 0 <= k < |ps| ==> positions[k] < |Table()| && ps[k] == Table()[positions[k]]
    ensures (forall k :: 0 <= k < |ps| ==> positions[k] !in ShadowedPositions) ==> Decode(Command(ps), Lookup) == Ok(ps)
    ensures (exists k :: 0 <= k < |ps| && positions[k] in ShadowedPositions) ==> Decode(Command(ps), Lookup) != Ok(ps)
  {
    ResolvingEntries();
    CatalogLookupConsistent();
    if forall k :: 0 <= k < |ps| ==> positions[k] !in ShadowedPositions {
      RoundTrip(ps, Lookup);
    } else {
      var k :| 0 <= k < |ps| && positions[k] in ShadowedPositions;
      assert !FoundBy(Lookup, ps[k]);
      if Decode(Command(ps), Lookup).Ok? {
        var qs := Decode(Command(ps), Lookup).value;
        DecodedParamsFound(Command(ps), 0, Lookup);
        assert ps[k] !in qs && ps[k] in ps;
      }
    }
  }

  /** "MAF Voltage RH" comes back from a round trip as "MAF Voltage". */
  lemma MafRhDecodesAsMafVoltage()
    ensures Command([Table()[3]]) == [RegisterParam, 0x05, StartStream]
    ensures Decode(Command([Table()[3]]), Lookup) == Ok([Table()[2]])
  {
    MafRhShadowed();
    NonBitEntriesResolve();
    var cmd := Command([Table()[3]]);
    assert cmd == Command([Table()[2]]);
    RoundTrip([Table()[2]], Lookup);
  }

  // ---------------------------------------------------------------------
  // The documented sample
  // ---------------------------------------------------------------------

  /** Vehicle speed, engine speed HR, coolant temperature, battery voltage,
      TPS, engine speed LR, MAF voltage, O2 voltage LH, ignition timing,
      AAC valve, AF alpha LH and AF alpha self-learn LH, by table position. */
  const SamplePositions: seq<nat> := [7, 0, 4, 8, 9, 1, 2, 5, 14, 15, 16, 18]

  function SampleParams(): (ps: seq<EcuParam>)
    ensures |ps| == 12
    ensures forall k :: 0 <= k < 12 ==> ps[k] == Table()[SamplePositions[k]]
  {
    seq(12, k requires 0 <= k < 12 => Table()[SamplePositions[k]])
  }

  /** The registration command of the sample, byte for byte. */
  const SampleCommand: seq<Byte> :=
    [0x5A, 0x0B, 0x5A, 0x01, 0x5A, 0x08, 0x5A, 0x0C, 0x5A, 0x0D, 0x5A, 0x03,
     0x5A, 0x05, 0x5A, 0x09, 0x5A, 0x16, 0x5A, 0x17, 0x5A, 0x1A, 0x5A, 0x1C, 0xF0]

  /** Encoding the sample list gives the sample bytes. */
  lemma SampleEncodes()
    ensures Command(SampleParams()) == SampleCommand
  {
    var ps := SampleParams();
    SampleRegisters();
    assert forall j :: 0 <= j < 12 ==> SampleCommand[2 * j] == RegisterParam;
    CommandIs(ps, SampleCommand);
  }

  /** Decoding the sample bytes through the catalog gives the sample list
      back, in order. */
  lemma SampleDecodes()
    ensures Decode(SampleCommand, Lookup) == Ok(SampleParams())
  {
    SampleFound();
    SampleEncodes();
    RoundTrip(SampleParams(), Lookup);
  }

  /** Every sample parameter resolves through the catalog. */
  lemma SampleFound()
    ensures forall j :: 0 <= j < |SampleParams()| ==> FoundBy(Lookup, SampleParams()[j])
  {
    var ps := SampleParams();
    NonBitEntriesResolve();
    forall j | 0 <= j < |ps| ensures FoundBy(Lookup, ps[j]) {
      assert Resolves(Table()[SamplePositions[j]]);
    }
  }

  lemma SampleRegisters()
    ensures forall k :: 0 <= k < 12 ==> GetRegister(Table()[SamplePositions[k]]) == SampleCommand[2 * k + 1]
  {
    forall k | 0 <= k < 12 ensures GetRegister(Entry(SamplePositions[k])) == SampleCommand[2 * k + 1] {}
  }

  /** As written, the encoder sends both registers of Engine Speed HR, the
      second parameter of the sample, so the command already differs from the
      documented one at its fourth byte (0x00 where the sample has 0x01). */
  lemma SampleAsWrittenDiffers()
    ensures CommandAsWritten(SampleParams())[..5] == [RegisterParam, 0x0B, RegisterParam, 0x00, 0x01]
    ensures SampleCommand[..5] == [RegisterParam, 0x0B, RegisterParam, 0x01, RegisterParam]
  {
    var ps := SampleParams();
    var front := ps[..2];
    assert front == [Table()[7], Table()[0]];
    assert front[..1] == [Table()[7]];
    assert PairsAsWritten(front) == [RegisterParam, 0x0B, RegisterParam, 0x00, 0x01];
    PairsAsWrittenPrefix(ps, 2);
    assert PairsAsWritten(ps) <= CommandAsWritten(ps);
  }

  /** The source's encoder emits the encoding of a prefix of the list as a
      prefix of the command: parameters are encoded in order. */
  lemma {:induction false} PairsAsWrittenPrefix(ps: seq<EcuParam>, m: nat)
    requires m <= |ps|
    ensures PairsAsWritten(ps[..m]) <= PairsAsWritten(ps)
    decreases |ps|
  {
    if m < |ps| {
      var n := |ps| - 1;
      PairsAsWrittenPrefix(ps[..n], m);
      assert ps[..n][..m] == ps[..m];
    } else {
      assert ps[..m] == ps;
    }
  }

  /** Which parameters of the list are Dual. */
  function DualFlags(ps: seq<EcuParam>): (f: seq<bool>)
    ensures |f| == |ps| && forall k :: 0 <= k < |ps| ==> (f[k] <==> ps[k].Dual?)
  {
    seq(|ps|, k requires 0 <= k < |ps| => ps[k].Dual?)
  }

  /** The source's command carries two bytes per parameter plus one more per
      Dual parameter, so it is 2n+1 bytes long exactly when no parameter is
      Dual. */
  lemma {:induction false} WrittenWidthCountsDuals(ps: seq<EcuParam>)
    ensures WrittenWidth(ps) == 2 * |ps| + CountTrue(DualFlags(ps))
  {
    if ps != [] {
      var n := |ps| - 1;
      WrittenWidthCountsDuals(ps[..n]);
      assert DualFlags(ps)[..n] == DualFlags(ps[..n]);
    }
  }

  /** An Engine Speed HR command as the source writes it is `5A 00 01 F0`:
      its first window asks for register 0x00, which no catalog entry is
      looked up by, so the command does not decode. */
  lemma DualEncodingBreaksRoundTrip()
    ensures CommandAsWritten([Table()[0]]) == [RegisterParam, 0x00, 0x01, StartStream]
    ensures Decode(CommandAsWritten([Table()[0]]), Lookup) == Err(UnresolvableRegister(0x00))
  {
    var written := CommandAsWritten([Table()[0]]);
    assert [Table()[0]][..0] == [];
    assert written == [RegisterParam, 0x00, 0x01, StartStream];
    EngineSpeedMsbUnresolvable();
    assert Window(written, 0) == [RegisterParam, 0x00];
  }

  lemma EngineSpeedMsbUnresolvable()
    ensures Lookup(0x00).None?
  {
    DualAddressedByLsbOnly();
    assert Table()[0].Dual? && Table()[0].msb == 0x00;
    LookupIsFirstMatch(0x00);
  }

  /** The canonical encoding of Engine Speed HR, `5A 01 F0`, decodes back to
      Engine Speed HR. */
  lemma DualEncodingRoundTrips()
    ensures Command([Table()[0]]) == [RegisterParam, 0x01, StartStream]
    ensures Decode(Command([Table()[0]]), Lookup) == Ok([Table()[0]])
  {
    NonBitEntriesResolve();
    assert FoundBy(Lookup, [Table()[0]][0]);
    RoundTrip([Table()[0]], Lookup);
  }

  // ---------------------------------------------------------------------
  // Marker search
  // ---------------------------------------------------------------------

  /** The needle occurs in buf starting at position k. */
  predicate OccursAt(buf: seq<Byte>, needle: seq<Byte>, k: nat)
  {
    k + |needle| <= |buf| && buf[k..k + |needle|] == needle
  }

  /** The needle occurs at position k and at no earlier position. */
  predicate FirstOccursAt(buf: seq<Byte>, needle: seq<Byte>, k: nat)
  {
    OccursAt(buf, needle, k) && forall j :: 0 <= j < k ==> !OccursAt(buf, needle, j)
  }

  ghost predicate Contains(buf: seq<Byte>, needle: seq<Byte>)
  {
    exists k :: OccursAt(buf, needle, k)
  }

  /** The first occurrence of the needle at or after position i. */
  function FirstOccurrence(buf: seq<Byte>, needle: seq<Byte>, i: nat): (r: Option<nat>)
    ensures r.Some? ==> i <= r.value && OccursAt(buf, needle, r.value)
    ensures r.Some? ==> forall j :: i <= j < r.value ==> !OccursAt(buf, needle, j)
    ensures r.None? ==> forall j :: i <= j ==> !OccursAt(buf, needle, j)
    decreases |buf| - i
  {
    if i + |needle| > |buf| then None
    else if buf[i..i + |needle|] == needle then Some(i)
    else FirstOccurrence(buf, needle, i + 1)
  }

  /** scan_match: whether the needle occurs, and the bytes strictly after its
      first occurrence, or the input unchanged when it does not occur. */
  function ScanMatch(buf: seq<Byte>, needle: seq<Byte>): (r: (bool, seq<Byte>))
    ensures r.0 <==> Contains(buf, needle)
    ensures !r.0 ==> r.1 == buf
    ensures r.0 ==> exists k: nat :: (OccursAt(buf, needle, k) && r.1 == buf[k + |needle|..]
                                 && forall j :: 0 <= j < k ==> !OccursAt(buf, needle, j))
  {
    match FirstOccurrence(buf, needle, 0)
    case Some(k) => (true, buf[k + |needle|..])
    case None => (false, buf)
  }

  // The five pinned cases of scan_match, one lemma each.

  /** A leading stray byte is skipped; what follows the marker is kept. */
  lemma ScanMatchSkipsStrayByte()
    ensures ScanMatch([0xFF, 0xFF, 0xFF, 0xEF, 0x5A], Init) == (true, [0x5A])
  {
    var a: seq<Byte> := [0xFF, 0xFF, 0xFF, 0xEF, 0x5A];
    assert a[0..3][2] != Init[2] && a[1..4] == Init;
    assert FirstOccurrence(a, Init, 0) == Some(1);
  }

  /** A marker that ends the buffer leaves nothing after it. */
  lemma ScanMatchMarkerAtEnd()
    ensures ScanMatch([0xFF, 0xFF, 0xFF, 0xEF], Init) == (true, [])
  {
    var b: seq<Byte> := [0xFF, 0xFF, 0xFF, 0xEF];
    assert b[0..3][2] != Init[2] && b[1..4] == Init;
    assert FirstOccurrence(b, Init, 0) == Some(1);
  }

  /** The marker alone matches. */
  lemma ScanMatchExactMarker()
    ensures ScanMatch([0xFF, 0xFF, 0xEF], Init) == (true, [])
  {
    var c: seq<Byte> := [0xFF, 0xFF, 0xEF];
    assert c[0..3] == Init;
    assert FirstOccurrence(c, Init, 0) == Some(0);
  }

  /** A partial marker does not match and leaves the input unchanged. */
  lemma ScanMatchPartialMarker()
    ensures ScanMatch([0xFF, 0xEF], Init) == (false, [0xFF, 0xEF])
  {
  }

  /** A one-byte needle: the first occurrence wins. */
  lemma ScanMatchFirstOccurrence()
    ensures ScanMatch([0xFF, 0x5A, 0x03, 0x5A], [RegisterParam]) == (true, [0x03, 0x5A])
  {
    var e: seq<Byte> := [0xFF, 0x5A, 0x03, 0x5A];
    assert e[0..1][0] != RegisterParam && e[1..2] == [RegisterParam];
    assert FirstOccurrence(e, [RegisterParam], 0) == Some(1);
  }
}
