# Nissan Consult protocol engine, in Dafny

This project models the protocol core of the Nissan Consult ECU viewer. The
viewer asks a Nissan ECU to stream chosen registers over its Consult serial
interface, then turns each streamed frame into engine parameters. The model
covers five parts of the source:

- **Parameters** (`params.dfy`, module `Params`). A parameter is one of three
  kinds: a one-byte value, a big-endian 16-bit value read from an MSB and an
  LSB register, or one bit of a register. The model gives each kind's
  register bytes, its canonical single register, its raw value from a frame
  and its scaled value. The mutable `enabled` flag is a small class.
- **The catalog** (`definition.dfy`, module `Definition`). It holds:
  - the protocol constants and the fixed 59-entry table;
  - lemmas about the table: address bounds, adjacent Dual registers, no
    aliasing apart from the duplicated MAF entry, and protocol markers that
    never appear as registers;
  - the lookup of a parameter by its canonical register;
  - `ConsultDefinition`, a class over the per-parameter flags with the
    all/enabled/count queries.
- **The command codec** (`utils.dfy`, module `Utils`).
  - `params_to_command` is a loop building `(5A reg)* F0`.
  - `command_to_params` is a loop reading two-byte windows back into
    parameters.
  - The round trip is proved for any lookup. For the catalog it is exact
    for the 46 entries that are the first with their canonical register.
    The other 13 come back as that earlier entry, keeping their register,
    which `RoundTripRegisters` covers. The 12-parameter sample command is
    checked byte for byte.
  - The module also holds the contract of `scan_match`, the marker search the
    mock ECU uses.
- **The mock ECU** (`serial.dfy`, module `MockSerial`).
  - `ConsultSerialMock` is a class with the source's `initialized` flag and
    input and output buffers.
  - Its `Write` method is the two-phase `_write`. First it synchronises on
    the marker `FF FF EF`, carrying two bytes over between writes. Then it
    hands on at most one `5A cmd` command per write.
  - A ghost log records the bytes written and the commands handed on.
- **The earlier draft** (`consultmodel.dfy`, module `DraftModel`). The
  draft's own formulas and its own copy of the table are proved equal to the
  later ones. `ConsultModel.get_params` is modelled as handing out the same
  shared objects on every call.

`wrappers.dfy` holds the usual `Option` and `Result` types.

The protocol constants of `definition.py:6-13` are the byte constants
`Init`, `InitResponse`, `RegisterParam`, `StartStream`, `StopStream` and
`StopAck` of module `Definition`.

Bytes and registers are integers from 0 to 255. The source writes registers
as one-character strings, such as `'\x0B'`. Scales and offsets are exact
reals.

Some questions are left open by the source, and the model answers them as
follows:

- **The register a parameter is sent as.** `params_to_command` appends
  `get_registers()`, which is both bytes for a Dual. The documented sample
  command sends only the LSB, and the `get_register` docstring says the same.
  The model's encoder sends the canonical register: the LSB for a Dual, the
  one register otherwise. The code as written is modelled next to it; see
  Findings.
- **`Definition.get_param`.** `command_to_params` calls it, but it is not
  part of `definition.py`.
  - The codec takes the lookup as a parameter `find`.
  - `Definition.Lookup` is the catalog instance. It returns the first table
    entry whose canonical register is the one asked for.
  - So "MAF Voltage" wins over its duplicate "MAF Voltage RH". The bit
    entries sharing a register do the same: only the first bit of each of
    registers 0x13, 0x1E, 0x1F and 0x21 is found. That makes 13 of the 59
    entries that a lookup never returns.
  - A window `5A r` names what the lookup answers for `r`. A window with no
    answer is an error.
  - The lone final `F0` window names no parameter. Any other window is an
    error.
- **`scan_match`.** Its body is not part of this model. The model returns
  `(found, bytes after the first occurrence)`, which fits the unit test's
  four hits. On a miss it returns `(false, input unchanged)`. The test has
  only one miss, `FF EF`, so that general miss case is a modelling choice.
  A scanner that dropped bytes which cannot start a marker would pass the
  test too. A second test script,
  `test/interface_utils.py:15-21`, expects other results on two inputs. The
  model follows the unit test. That reading is also the one the mock's
  carry-over comment relies on.

## Model

| member | source | states |
|---|---|---|
| Params.Registers | consult_viewer/consult_interface/params.py:13-19 | one byte for Single and Bit, exactly `[msb, lsb]` for Dual (also lines 46-47, 62-64, 79-80) |
| Params.GetRegister | consult_viewer/consult_interface/params.py:23-28 | a single byte, one of the parameter's registers, and the LSB for a Dual |
| Params.GetRegisterAsWritten | consult_viewer/consult_interface/params.py:66-67 | the code as written: an answer for Single and Bit that equals the canonical register, and none for every Dual |
| Params.InFrameCoversRegisters | consult_viewer/consult_interface/params.py:52-53 | extraction is defined exactly when every register of the parameter indexes into the frame |
| Params.Combine | consult_viewer/consult_interface/params.py:69-70 | `(hi << 8) + lo` is below 65536, and its high and low bytes are `hi` and `lo` again |
| Params.BitOf | consult_viewer/consult_interface/params.py:85-86 | `(b >> bit) & 1` is 0 or 1 |
| Params.BitOfIsBinaryDigit | consult_viewer/consult_interface/params.py:85-86 | the extracted bit is digit `bit` of the byte's binary expansion, and 0 past its last digit |
| Params.Unscaled | consult_viewer/consult_interface/params.py:52-53 | Single: the frame byte, below 256. Dual: `v/256` and `v%256` are the MSB and LSB bytes, below 65536 (lines 69-70). Bit: the bit, 0 or 1 (lines 85-86) |
| Params.GetValue | consult_viewer/consult_interface/params.py:34-35 | undoing the offset and a non-zero scale gives back the raw value; with scale 1 and offset 0 it is the raw value; with scale 0 it is the offset |
| Params.ParamEntry.constructor | consult_viewer/consult_interface/params.py:5-10 | a new parameter starts disabled |
| Params.ParamEntry.Enable | consult_viewer/consult_interface/params.py:37-38 | sets the flag to `state` and changes nothing else, so enabling twice is enabling once (the draft's `enable` at src/consultmodel.py:27-28 is the same) |
| Definition.Table | consult_viewer/consult_interface/definition.py:15-74 | 59 entries, in definition order |
| Definition.TableAddressBounds | consult_viewer/consult_interface/definition.py:15-74 | every register address is at most 0x53 and every bit index is 0..7, so a frame of 0x54 bytes holds every entry's registers |
| Definition.DualRegistersAdjacent | consult_viewer/consult_interface/definition.py:16-19 | in every Dual entry the LSB register is the MSB register plus one |
| Definition.AddressesUniqueExceptMafDuplicate | consult_viewer/consult_interface/definition.py:15-74 | two entries read the same registers and bit exactly when they are "MAF Voltage" and "MAF Voltage RH" |
| Definition.MarkersAreNotRegisters | consult_viewer/consult_interface/definition.py:8-9 | neither 0x5A nor 0xF0 is a register address of any entry |
| Definition.EngineSpeedRegister | consult_viewer/consult_interface/params.py:66-67 | for Engine Speed HR, get_register as written has no answer, while the canonical register is its LSB 0x01 |
| Definition.LookupByRegister | consult_viewer/consult_interface/utils.py:24 | the position of the first entry whose canonical register is `r`, and none exactly when no entry has it |
| Definition.Lookup | consult_viewer/consult_interface/utils.py:24 | whatever the catalog lookup returns is addressed by the register asked for |
| Definition.LookupIsFirstMatch | consult_viewer/consult_interface/utils.py:24 | the lookup answers exactly when some entry has canonical register `r`, and returns the first such table entry |
| Definition.CatalogRegisterFound | consult_viewer/consult_interface/utils.py:24 | looking up the canonical register of any catalog entry finds an entry |
| Definition.DualAddressedByLsbOnly | consult_viewer/consult_interface/params.py:23-28 | a lookup by a Dual's MSB finds nothing, and a lookup by its LSB finds an entry |
| Definition.MafRhShadowed | consult_viewer/consult_interface/definition.py:18-19 | "MAF Voltage RH" has canonical register 0x05, and a lookup of 0x05 finds "MAF Voltage" |
| Definition.AcRegisterBits | consult_viewer/consult_interface/definition.py:59-63 | "A/C On" is bit 4 and "Power Steering" bit 3, and all five bit entries from there on read register 0x13 |
| Definition.FirstMatchFound | consult_viewer/consult_interface/utils.py:24 | an entry with canonical register `r` and none before it is the one the lookup finds |
| Definition.AcRegisterResolvesToFirstBit | consult_viewer/consult_interface/definition.py:59-63 | a lookup of register 0x13 finds "A/C On", the first of its five bits |
| Definition.NonBitEntriesResolve | consult_viewer/consult_interface/definition.py:16-58 | every Single and Dual entry except "MAF Voltage RH" is what a lookup of its own register returns |
| Definition.ResolvesIffFirst | consult_viewer/consult_interface/utils.py:24 | an entry is what a lookup of its own register returns exactly when no earlier entry has that register |
| Definition.FirstForRegister | consult_viewer/consult_interface/definition.py:15-74 | the entries with no earlier entry on their canonical register are exactly those outside positions 3, 44-47, 49-52, 54-56 and 58 |
| Definition.ResolvingEntries | consult_viewer/consult_interface/definition.py:15-74 | a catalog entry resolves to itself exactly when its position is not one of those 13: "MAF Voltage RH" and every bit after the first of registers 0x13, 0x1E, 0x1F and 0x21 |
| Definition.ShadowedEntriesDoNotResolve | consult_viewer/consult_interface/definition.py:18-19 | "MAF Voltage RH" and "Power Steering" are not what a lookup of their own register returns |
| Definition.LookupResolves | consult_viewer/consult_interface/utils.py:24 | whatever a lookup returns is returned again by a lookup of its own register |
| Definition.SampleValues | consult_viewer/consult_interface/params.py:69-70 | engine speed bytes 01 F4 give 500 raw and 6250 RPM; register byte 0x10 gives 1 for "A/C On" (bit 4) and 0 for "Power Steering" (bit 3) |
| Definition.CountAfterUpdate | consult_viewer/consult_interface/definition.py:82-83 | setting one flag changes the count by one exactly when the flag changes |
| Definition.ConsultDefinition.constructor | consult_viewer/consult_interface/definition.py:15-74 | one fresh, disabled, distinct parameter object per table entry |
| Definition.ConsultDefinition.GetParameters | consult_viewer/consult_interface/definition.py:76-77 | the 59 table entries, in definition order |
| Definition.ConsultDefinition.GetEnabledParameters | consult_viewer/consult_interface/definition.py:79-80 | exactly the enabled parameters, as an order-preserving subsequence of the table |
| Definition.ConsultDefinition.CountEnabledParameters | consult_viewer/consult_interface/definition.py:82-83 | the count is the length of the enabled list, in every state |
| Definition.ConsultDefinition.EnableParameter | consult_viewer/consult_interface/definition.py:82-83 | one flag set and no other moved; the count rises by one when a disabled parameter is enabled and stays the same when the flag does not change |
| Utils.PairAt | consult_viewer/consult_interface/utils.py:9-12 | two bytes per parameter: pair k is 0x5A and the register of parameter k, in input order, with no reordering or deduplication |
| Utils.Command | consult_viewer/consult_interface/utils.py:7-17 | length `2n+1`, ending in one start-stream byte; the empty list gives `[F0]` |
| Utils.CommandPair | consult_viewer/consult_interface/utils.py:9-12 | pair k of the command is 0x5A followed by the register of parameter k |
| Utils.CommandIs | consult_viewer/consult_interface/utils.py:7-17 | any byte list with the right pairs and a final 0xF0 is the command |
| Utils.StartStreamOnlyAtEnd | consult_viewer/consult_interface/utils.py:16 | for catalog parameters 0xF0 occurs in the command only at its end |
| Utils.ParamsToCommand | consult_viewer/consult_interface/utils.py:7-17 | the loop builds exactly the command of the list |
| Utils.CommandAsWritten | consult_viewer/consult_interface/utils.py:12 | the code as written, appending every register of each parameter: one byte longer per Dual, still ending in 0xF0 |
| Utils.AsWrittenAgreesWithoutDuals | consult_viewer/consult_interface/utils.py:12 | without Dual parameters the code as written and the model's encoder give the same bytes |
| Utils.WrittenWidthCountsDuals | consult_viewer/consult_interface/utils.py:8-17 | the pairs as written take `2n` bytes plus one more per Dual, so the command as written is `2n + 1 + (number of Duals)` bytes long |
| Utils.ResolveWindow | consult_viewer/consult_interface/utils.py:24 | `5A r` gives what the lookup answers for `r` or an error naming `r`; a lone `F0` gives no parameter; anything else is an error |
| Utils.DecodeFrom | consult_viewer/consult_interface/utils.py:22-25 | at most one parameter per two-byte window |
| Utils.Decode | consult_viewer/consult_interface/utils.py:20-29 | a command of n bytes gives at most `(n+1)/2` parameters |
| Utils.DecodedParamsFound | consult_viewer/consult_interface/utils.py:24-25 | with a lookup that answers only for the register asked for, every decoded parameter is what the lookup returns for its own register |
| Utils.CommandToParams | consult_viewer/consult_interface/utils.py:20-29 | the stepped loop gives the decode of the whole command: the windows in order, and the first failure aborts with no partial result |
| Utils.WindowsOfCommand | consult_viewer/consult_interface/utils.py:22-24 | the windows of a command are its pairs, then the lone start-stream byte |
| Utils.DecodePair | consult_viewer/consult_interface/utils.py:22-25 | a resolved `5A r` window contributes its parameter ahead of the rest of the decode |
| Utils.DecodeLast | consult_viewer/consult_interface/utils.py:22-25 | a final lone 0xF0 decodes to nothing |
| Utils.DecodeCommandFrom | consult_viewer/serialloopbacktest.py:74-85 | decoding an encoded list from pair k gives the list from position k |
| Utils.RoundTrip | consult_viewer/serialloopbacktest.py:74-85 | decoding an encoded list gives the original parameters in the original order, when each is what the lookup returns for its register |
| Utils.DecodeIsIdempotent | consult_viewer/consult_interface/utils.py:20-29 | what a decode returns encodes and decodes to itself |
| Utils.RoundTripRegisters | consult_viewer/serialloopbacktest.py:74-85 | any list of catalog entries round-trips through the catalog lookup to a list of the same length with the same registers at each position |
| Utils.CatalogLookupConsistent | consult_viewer/consult_interface/utils.py:24 | the catalog lookup only answers with entries addressed by the register asked for, so the generic decoding lemmas apply to it |
| Utils.CatalogRoundTrip | consult_viewer/serialloopbacktest.py:74-85 | a list of catalog entries decodes back to itself when none sits at a shadowed position, and does not when one does |
| Utils.MafRhDecodesAsMafVoltage | consult_viewer/consult_interface/definition.py:18-19 | "MAF Voltage RH" encodes as `5A 05 F0` and comes back as "MAF Voltage" |
| Utils.SampleParams | consult_viewer/serialloopbacktest.py:43-57 | the twelve sample parameters, in the sample's order |
| Utils.SampleRegisters | consult_viewer/serialloopbacktest.py:22 | the registers of the sample parameters are the register bytes of the sample command |
| Utils.SampleEncodes | consult_viewer/serialloopbacktest.py:58-67 | encoding the sample list gives exactly the bytes `5A 0B 5A 01 ... 5A 1C F0` |
| Utils.SampleDecodes | consult_viewer/serialloopbacktest.py:74-85 | decoding the sample bytes gives the sample list back, in order |
| Utils.SampleAsWrittenDiffers | consult_viewer/consult_interface/utils.py:12 | as written, the sample command starts `5A 0B 5A 00 01` where the documented sample has `5A 0B 5A 01 5A` |
| Utils.DualEncodingBreaksRoundTrip | consult_viewer/consult_interface/utils.py:12 | as written, Engine Speed HR encodes as `5A 00 01 F0`, which decodes to an error for register 0x00 |
| Utils.EngineSpeedMsbUnresolvable | consult_viewer/consult_interface/definition.py:16 | no entry is looked up by register 0x00, the MSB of Engine Speed HR |
| Utils.DualEncodingRoundTrips | consult_viewer/consult_interface/utils.py:12 | encoding with the canonical register, Engine Speed HR is `5A 01 F0` and decodes back to itself |
| Utils.ScanMatch | consult_viewer/consult_interface/test/test_utils.py:9-32 | found exactly when the needle occurs; if so, the bytes strictly after its first occurrence, and otherwise the input unchanged |
| Utils.ScanMatchSkipsStrayByte | consult_viewer/consult_interface/test/test_utils.py:10-18 | `FF FF FF EF 5A` gives `(true, 5A)` |
| Utils.ScanMatchMarkerAtEnd | consult_viewer/consult_interface/test/test_utils.py:11-19 | `FF FF FF EF` gives `(true, empty)` |
| Utils.ScanMatchExactMarker | consult_viewer/consult_interface/test/test_utils.py:12-20 | `FF FF EF` gives `(true, empty)` |
| Utils.ScanMatchPartialMarker | consult_viewer/consult_interface/test/test_utils.py:13-21 | `FF EF` gives `(false, FF EF)`, the input unchanged |
| Utils.ScanMatchFirstOccurrence | consult_viewer/consult_interface/test/test_utils.py:14-22 | `FF 5A 03 5A` with needle `5A` gives `(true, 03 5A)` |
| MockSerial.LastN | consult_viewer/consult_interface/src/serial.py:108 | the last n bytes, or all of them when there are fewer, and a suffix of the input |
| MockSerial.Sync | consult_viewer/consult_interface/src/serial.py:103-109 | the mock becomes initialised exactly when the grown buffer holds the marker; then it keeps the bytes after the first occurrence of the marker, and otherwise the last two bytes |
| MockSerial.SyncKeepsAfterFirstMarker | consult_viewer/consult_interface/src/serial.py:105 | a write of `FF FF EF FF FF EF` initialises the mock and keeps the second marker `FF FF EF` |
| MockSerial.FindCommand | consult_viewer/consult_interface/src/serial.py:113-115 | the first 0x5A that has a byte after it |
| MockSerial.Extract | consult_viewer/consult_interface/src/serial.py:113-119 | the command is the byte after the first 0x5A that has a successor, and the buffer becomes exactly what follows that pair; with no such 0x5A nothing is handed on and the buffer is unchanged |
| MockSerial.ExtractAt | consult_viewer/consult_interface/src/serial.py:113-119 | a 0x5A with a successor and none before it is the command handed on |
| MockSerial.ExtractNone | consult_viewer/consult_interface/src/serial.py:113-119 | with no 0x5A that has a successor, nothing is handed on |
| MockSerial.ContainsGrows | consult_viewer/consult_interface/src/serial.py:103 | once the marker has occurred, later writes keep it occurring |
| MockSerial.CarryOver | consult_viewer/consult_interface/src/serial.py:107-108 | carrying the last two bytes over loses nothing: with no marker so far, the marker occurs in everything written plus the new bytes exactly when it occurs in the carry-over plus the new bytes |
| MockSerial.LastNOfCarry | consult_viewer/consult_interface/src/serial.py:108 | the last two bytes of the carry-over plus a write are the last two bytes of everything written |
| MockSerial.ConsultSerialMock.constructor | consult_viewer/consult_interface/src/serial.py:86-91 | starts uninitialised with both buffers empty |
| MockSerial.ConsultSerialMock.Write | consult_viewer/consult_interface/src/serial.py:99-119 | see the list below this table |
| MockSerial.SplitMarkerInitializes | consult_viewer/consult_interface/src/serial.py:107-108 | writing `FF FF` then `EF` leaves the mock waiting with `FF FF` carried over, then initialises it |
| MockSerial.CommandInInitializingWrite | consult_viewer/consult_interface/src/serial.py:103-113 | on the write that completes the marker, the bytes after it are searched for a command in the same call |
| MockSerial.OneCommandPerWrite | consult_viewer/consult_interface/src/serial.py:113-119 | `03 5A 0B 5A 0C` hands on only 0x0B and keeps `5A 0C` |
| MockSerial.TrailingMarkerWaits | consult_viewer/consult_interface/src/serial.py:114-115 | a final 0x5A with no byte after it waits, and the buffer is kept |
| DraftModel.DraftRegisters | src/consultmodel.py:36-37 | the draft's `get_registers` (also lines 49-50, 62-63) gives the same bytes as the later definition |
| DraftModel.DraftUnscaled | src/consultmodel.py:39-40 | the draft's byte, `(msb << 8) + lsb` and `(b >> bit) & 1` (also lines 52-53, 65-66) give the same raw value as the later definition |
| DraftModel.DraftValue | src/consultmodel.py:24-25 | the draft's `get_value` gives the same physical value as the later definition |
| DraftModel.DraftTableIsTable | src/consultmodel.py:81-140 | the draft table is the later definition's table, entry for entry and in the same order |
| DraftModel.ConsultModel.constructor | src/consultmodel.py:81-140 | one fresh, disabled, distinct parameter object per draft entry |
| DraftModel.ConsultModel.GetParams | src/consultmodel.py:142-143 | the 59 entries of the table, in order, as distinct objects, and the same objects on every call |
| DraftModel.EnableThroughGetParams | src/mainview.py:55-60 | a flag set on an object from `get_params` is what every later caller of `get_params` sees, and no other flag moves |

`MockSerial.ConsultSerialMock.Write` states the following. A ghost log keeps
every byte written.

- The mock is initialised exactly when the marker occurs somewhere in
  everything written so far.
- Once initialised, it stays initialised.
- While not initialised:
  - the buffer holds the last two bytes written;
  - no command has been handed on.
- Once initialised, it searches for a command. The search runs over the
  grown buffer, or over the bytes after the marker on the write that
  initialises the mock.
  - At most one command is handed on per write.
  - That command is the byte after the first 0x5A that has a successor.
  - The buffer becomes exactly what follows that pair.
  - When there is no such 0x5A, the buffer is left as it is.
- The output buffer is never touched.

## Left out

- `Definition.get_param`: its body is not part of `definition.py`, so
  `get_param` is not part of this model.
  - The codec takes the lookup as the parameter `find`.
  - The catalog instance is `Definition.Lookup`, a search by canonical
    register in which the first entry wins.
  - How a window maps to a lookup is a modelling choice, described above.
- `ConsultSerialMock._process_command` is called at serial.py:118 but
  defined nowhere in the source. The model records each call in the ghost log
  `dispatched`.
- The body of `scan_match` is not part of this model. `Utils.ScanMatch` is a
  definition that satisfies the contract the unit test pins down.
- `ConsultSerialMock._read`, `_open` and `_close` do nothing. The output
  buffer is created but never written, and the model only states that it is
  unchanged.
- Left out because they are serial I/O, a polling thread or a factory over
  them: `ConsultSerial`, `ConsultSerialImpl`, `ReadParamFramesThread`,
  `create` and the empty mock stubs in `consult_viewer/consult_interface/serial.py`.
- The Qt user interface is left out: the table models, widgets and the rest
  of `src/mainview.py`. Only the enabling through `get_params` at lines 55-60
  is modelled.
- Scaled values use exact real arithmetic, not Python floating point. A scale
  such as `1/100` is the exact real 0.01.
- Python `str`/`bytes` type errors are not modelled. Examples are
  `bytes + str` at utils.py:11 and `bytes(str)` at params.py:50, 63-64 and 83.
  Another is src/serial.py:114, which compares a buffer byte with the
  one-character string `'\x5A'`. Every register and every protocol constant
  is a byte value. The unit test reads the constants that way: it calls
  `to_bytes` on them at test/test_utils.py:6 and 14.
- `Params.Unscaled`: a frame too short for a parameter's registers raises
  `IndexError` at params.py:53, 70 and 86. The model requires the frame to
  hold the registers (`InFrame`), so that error path is not modelled.
  `TableAddressBounds` shows any frame of at least 0x54 bytes is long enough
  for every catalog entry.
- Exceptions carry no message, and printing and logging are left out. A
  failed conversion is an `Err` result with no partial output.
- The `timer` decorator is left out.
- The source builds each table as a list literal of freshly constructed
  objects. The constructors' loops are how the model allocates one object per
  entry.
- The draft's protocol constants at `src/consultmodel.py:70-78` equal those
  of `definition.py`. They are not declared a second time.

## Findings

| source | as written | input that shows it | evidently intended | confidence | as-written member | corrected member |
|---|---|---|---|---|---|---|
| consult_viewer/consult_interface/params.py:66-67 | `EcuParamDual.get_register` returns `bytes(self.register)`, an attribute a Dual never sets | any Dual, e.g. "Engine Speed HR" (registers 0x00, 0x01): the call fails | return the LSB, as the docstring at params.py:23-28 promises | not executed | Params.GetRegisterAsWritten | Params.GetRegister |
| consult_viewer/consult_interface/utils.py:12 | `params_to_command` appends `get_registers()`, which is both bytes of a Dual | `[Engine Speed HR]` encodes as `5A 00 01 F0`. Its windows `5A 00` and `01 F0` do not decode, and the 12-parameter sample differs from the documented `5A 0B 5A 01 ...` at its fourth byte | append the single canonical register, as the sample command at serialloopbacktest.py:22 does | not executed | Utils.DualEncodingBreaksRoundTrip | Utils.DualEncodingRoundTrips |
