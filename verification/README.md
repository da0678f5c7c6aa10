# A verified model of smart.go's decoding layer

The project models how the Go library `smart` turns raw drive bytes into typed answers, and how it talks to a drive to
get them: the sense-data readers behind every register-reporting ATA command, the SMART attribute decoder, IDENTIFY
decoding, the power-management commands with their ATA PASS-THROUGH(16) blocks, and the NVMe / SATA / SCSI probe behind
`Open`. Dafny 4.11 proves it; `dafny verify dfyconfig.toml` checks everything.

Loops, buffers and objects of the source are loops, arrays and classes here; its expression-like code is functions.
Integers are mathematical, with Go's wrap-around, truncation and sign reinterpretation written out. Masks are written
with division and remainder. Every index and slice is proved in range, for input of any length.

The operating system is a `Scsi.Kernel` object whose methods choose their answers freely and append each request, with
its answer, to a ghost log. Every statement about a command or about `Open` therefore holds for every kernel and every
device. One thing is assumed of it: the sg driver writes no more sense bytes than the 96-byte buffer it is given.

## Modules

| module | what it holds |
|---|---|
| `Bytes`, `Wrappers` | Go's integer types and conversions; `Option` and `Result` |
| `AtaSense`, `AtaSenseTheorems` | fixed and descriptor sense data (section 4.5 of SPC-4), the ATA Status Return descriptor (section 12.2 of SAT-3), the status and power-mode readers |
| `RawValue`, `RecordOrders`, `Temperature`, `TemperatureTheorems`, `Durations` | packing attribute bytes into a `uint64`, the database's byte orders, and reading the value back as a temperature or a duration |
| `SmartPages`, `SmartTables` | the bytes of attribute and threshold pages, the tables made of their entries |
| `DriveDb`, `GenericAttributes` | the drive database, the aggregation over a Go map |
| `Identify`, `AtaStrings` | checksum and capacity; byte-swapped strings |
| `SpinDownTimer` | the Standby timer codec (Table 52 of ACS-3) |
| `Scsi`, `PassThrough`, `Sata` | the SG_IO path, the ATA PASS-THROUGH(16) layout (section 12.2 of SAT-3), the commands of an open device |
| `Probe`, `ProbeTheorems` | `Open`, `OpenSata`, `OpenScsi` and their safety over all runs |

## Where the code and its comments differ

The model follows the code.

- scsi.go:51-55 says mask 7eh strips bit 1 of the response code; it strips bit 0 (and the VALID bit).
- sata.go:953-958 says some types override the database's byte order; every type does. `RecordOrders.HonouredExactly` says
  when a record's order would make no difference; `RecordOrders.NoDatabaseOrderIsHonoured` shows that for every non-empty
  order in the database it does.
- The `xx` bytes of the temperature layouts in sata.go:848-862 are not free: `TemperatureTheorems.FillerFits` says which
  values of the byte above the temperature keep a reading, `ThreeWordsLayout` which fillers of the three-word layout do. Each
  layout also has readings it does not survive: the lemmas named after the layouts give the exact conditions.
- sata.go:872-880 describes the mask of `checkTempWord` as bits 0 and 1; the code uses 01h and 10h.
- sata.go:522 describes a Temp10X value as the low 32 bits over ten; the code takes 16 bits.
- sata_power_linux.go:155-163 means to send the unload signature in the LBA register; it lands in the high order LBA bytes
  that a 28-bit command does not have (`Sata.UnloadSignatureIsMisplaced`).
- sata_power.go:26-29 defines the EPC subcommand GO TO POWER CONDITION; sata_power_linux.go:59-69 never puts it in the block
  (`Sata.EpcSubcommandIsMissing`).
- sata_linux.go:51-55 takes a nil error to mean that the device accepted IDENTIFY. A nil error only means that the ioctl
  went through with the error flag clear, or with CHECK CONDITION and sense data, which is dropped; any other status, BUSY
  included, is not looked at (`Scsi.AcceptedExactly`, `Scsi.OtherStatusIgnored`). So a type 0 device that
  refuses every IDENTIFY is opened as SATA in every run in which the lookup on the buffer's bytes meets no bad pattern
  (`ProbeTheorems.RefusedIdentifyStillOpens`); `ProbeTheorems.SataOpensExactly` says exactly when
  one is.

## Model

| member | source | states |
|---|---|---|
| `AtaSense.FindAtaReturnDescriptor` | sata_sense.go:130-155 | the offset loop refines the recursive parser on any bytes; a result has at least 14 bytes; at most half as many turns as payload bytes, rounded up |
| `AtaSense.FirstAtaReturn` | sata_sense.go:127-129 | the reference parser; a descriptor it returns is complete, at least 14 bytes |
| `AtaSenseTheorems.WalkFindsExactly` | sata_sense.go:127-155 | a descriptor is found iff well-formed, non-qualifying predecessors lead to it; nothing is found iff they lead to a truncated descriptor or the end |
| `AtaSenseTheorems.DescriptorRoundTrip` | sata_sense.go:85-91 | serialise any descriptor list that fits the length byte, with any header and trailing bytes: the walk gives back the first qualifying descriptor byte for byte, or none |
| `AtaSenseTheorems.ReadersAreExact` | sata_sense.go:157-198 | on every byte sequence, each reader succeeds iff the buffer carries the signature and registers, and returns exactly those |
| `AtaSenseTheorems.ReportIsCarried` | sata_sense.go:157-198 | the three registers seen by a successful read are exactly the carried ones, in either format |
| `AtaSenseTheorems.ConsumersAgree` | sata_power.go:124-171 | a power mode is reported iff the status reader succeeds and the sector count is one of the seven modes |
| `AtaSenseTheorems.SuccessNeedsSignature` | sata_sense.go:59-64 | success of either reader implies RECOVERED ERROR, 00h, 1Dh at the offsets of the buffer's format, current or deferred, VALID or not |
| `AtaSenseTheorems.ZeroBufferRejected` | scsi_linux.go:204-260 | an all-zero sense buffer of any length is rejected by both readers, with the error that says why |
| `AtaSenseTheorems.FixedCarriesReport` | sata_sense.go:105-125 | a fixed buffer built from any filler bytes, any fixed response code and any registers carries those registers |
| `AtaSenseTheorems.BuiltFormatsAgree` | sata_sense.go:157-198 | any registers built into a fixed buffer and into a descriptor buffer, behind any skipped descriptors: both readers give those registers for both |
| `AtaSenseTheorems.DescriptorCarrier` | sata_sense.go:93-103 | a descriptor buffer with the signature carries the registers of its first qualifying descriptor |
| `AtaSenseTheorems.FormatIndependence` | sata_sense.go:24-57 | the same registers give the same answers from both readers in either format |
| `AtaSenseTheorems.TrailingBytesIgnored` | sata_sense.go:66-91 | appending bytes to a valid buffer changes no answer and no error |
| `RawValue.PackBytes` | sata.go:976-1006 | the shift-and-or fold over any order string is the base-256 value modulo 2^64 |
| `RawValue.PackingIsExact` | sata.go:953-957 | up to eight selectors nothing is lost, and equal values mean equal selected bytes |
| `RawValue.OnlyLastEightMatter` | sata.go:1003-1004 | of a longer order string only the last eight selectors count |
| `RawValue.ComputeAttributeRawValue` | sata.go:959-1007 | the packed value in closed form for each of the 48, 56 and 64-bit types |
| `RawValue.EffectiveOrderPacks` | sata.go:960-974 | folding over the order string of each type gives that closed form |
| `RawValue.RawValueByType` | sata.go:959-974 | by type number, the bytes of the value: vendor bytes alone, with the reserved byte on top, or with worst and current below |
| `RecordOrders.HonouredExactly` | sata.go:953-974 | for every type and order string: all attributes read as the record's order asks iff its last eight characters, less leading ones that name no byte, are the type's built-in order |
| `RecordOrders.NoDatabaseOrderIsHonoured` | ata_device_database.go:32-93 | none of the nine type and order pairs that records of the database ask for is honoured |
| `RecordOrders.ThermalThrottleReadsByteFive` | ata_device_database.go:60-67 | the thermal throttle records leave vendor byte 5 out; the value read has it at bit 40 |
| `Temperature.CheckTempRange` | sata.go:894-911 | accepts exactly the ranges within -60..120 around the temperature that are not -1 with at most 0, writes the sorted pair on acceptance, leaves both targets alone otherwise |
| `Temperature.SplitWords` | sata.go:832-841 | the words and bytes cut from a raw value are the same digits |
| `Temperature.TenthsOfADegree` | sata.go:828-829 | a Temp10X value counting tenths in its two low bytes gives whole degrees, rounded down, and no range |
| `Temperature.MasksMeanInterpretations` | sata.go:872-892 | the AND of the three word masks is nonzero iff one signed interpretation fits all three words |
| `Temperature.ParseAsTemperature` | sata.go:826-870 | the branches choose the first layout, in a fixed order, whose shape and range fit |
| `TemperatureTheorems.SoundReading` | sata.go:830-866 | for every uint64: the signed low byte; any range is within -60..120 around it and made of the bytes of a layout that fits; a counter implies a maximum of at least 40 |
| `TemperatureTheorems.InterpretationsMean` | sata.go:872-892 | a word fits an interpretation iff it is some int8 temperature, zero-extended or sign-extended |
| `TemperatureTheorems.ThreeWordsReadsWords` | sata.go:858-860 | the three-word layout reports the three words under their common interpretation |
| `TemperatureTheorems.SplitInvertsPacking` | sata.go:832-841 | cutting a packed value into bytes gives the vendor bytes back |
| `TemperatureTheorems.ParsedIsPackThenParse` | sata.go:942-944 | packing six vendor bytes and parsing is reading the layouts off those bytes, whatever the other three bytes are |
| `TemperatureTheorems.BareLayout` | sata.go:847-849 | a lone temperature is read back iff its filler byte fits or makes no plausible range |
| `TemperatureTheorems.PairAboveLayout` | sata.go:850-852 | "00 00 HL LH xx TT" is read back, in either order of the bounds, iff the filler byte fits (or the range is the empty 0..0) |
| `TemperatureTheorems.PairAdjacentLayout` | sata.go:853-855 | "00 00 00 HL LH TT" is read back iff the maximum is not a -1 next to the temperature; that case becomes lo..0 |
| `TemperatureTheorems.ThreeWordsLayout` | sata.go:858-860 | "xx HL xx LH xx TT" with any three filler bytes and a range other than 0..0 is read back iff the words have a common interpretation, or, when the top word is zero, iff it reads as the shorter layout |
| `TemperatureTheorems.ThreeWordsZeroRange` | sata.go:846-866 | the range 0..0 in that layout is read back iff no filler byte makes a range of its own |
| `TemperatureTheorems.ThreeWordsSignedForms` | sata.go:858-860 | with zero or sign fillers it is read back iff it is not the sign-extended form with a top maximum of 0 over a negative minimum |
| `TemperatureTheorems.ThreeWordsMisread` | sata.go:846-858 | what that exception is read as: -1 for the maximum, or no range |
| `TemperatureTheorems.CountedLayout` | sata.go:861-864 | "CC CC HL LH xx TT" is read back iff the filler fits, the maximum is at least 40, the counter below 7fffh, and a one-byte counter next to a zero bound makes no plausible range |
| `Durations.DurationWrapsOnce` | sata.go:801-818 | the nested int64 operations give the true time modulo 2^64 |
| `Durations.DurationIsExactWhenItFits` | sata.go:801-818 | the result is the exact nanosecond count iff that fits int64 |
| `Durations.TightBounds` | sata.go:803-809 | the last exact count for the minute, second and half-minute types |
| `Durations.TightBoundsOfHours` | sata.go:810-814 | the hours-and-milliseconds type is exact iff the total is at most 9223372036854 milliseconds |
| `Durations.Msec24Hour32Bytes` | sata.go:966-969 | hours come from vendor bytes 0-3, milliseconds (below 2^24) from bytes 4, 5 and reserved |
| `Durations.UnknownDurationFails` | sata.go:801-818 | parsing fails exactly for the other types, and names the type |
| `SmartTables.FillAttributes` | sata.go:928-948 | keys are the ids before the first zero id, each with its last live entry; unmapped attributes get zero value, type and name |
| `SmartTables.FillThresholds` | sata.go:1024-1030 | the same for thresholds |
| `SmartTables.LastLiveMeaning` | sata.go:928-947 | an id's entry is its last occurrence before the first zero id; other ids have none |
| `SmartTables.TailIsIgnored` | sata.go:929-931 | entries from the first zero id on change nothing |
| `SmartTables.OnlyLiveIds` | sata.go:928-947 | an id is in the table iff it occurs before the first zero id |
| `SmartPages.AttrPageRoundTrip` | sata.go:548-563 | any thirty attributes written field by field into a page, with any version and trailing bytes, are read back |
| `SmartPages.ThresholdPageRoundTrip` | sata.go:681-694 | the same for thirty thresholds and their padding |
| `SmartPages.AttributeOfPage` | sata.go:928-948 | from page bytes to table: the last live entry of an id is found there with its fields and its mapping's name, type and value |
| `SmartPages.ThresholdOfPage` | sata.go:1024-1030 | the same for a threshold |
| `DriveDb.FindMatchingDbRecord` | sata.go:755-779 | the lowest-index record whose model and non-empty firmware patterns match; an error iff a bad pattern is met first |
| `DriveDb.PatternsDecide` | sata.go:755-779 | which outcomes of a record's two patterns skip it, match it or are an error |
| `DriveDb.FindAttributesMapping` | sata.go:734-753 | the defaults overridden key by key by that record's presets, in a fresh table or the default one; nothing existing is modified |
| `DriveDb.LayeredByKey` | sata.go:746-752 | a preset replaces its key's default, every other key keeps its default if it has one |
| `GenericAttributes.AggregateAttributes` | sata.go:706-731 | any run of the map loop fails iff a temperature cannot be parsed, and otherwise gives the aggregate of a full visiting order |
| `GenericAttributes.FieldComesFromMember` | sata.go:706-729 | a field is zero if its group is empty, else some member's contribution |
| `GenericAttributes.TwoTemperaturesDependOnOrder` | sata.go:709-714 | with two temperature attributes the one visited last sets the temperature |
| `GenericAttributes.FailureIsOrderIndependent` | sata.go:709-713 | every order fails or none does: iff a temperature-named attribute has a non-temperature type |
| `GenericAttributes.OrderIndependentExactly` | sata.go:706-729 | for every attribute map: all orders give one result iff some temperature is unparseable or the members of each tracked group agree |
| `GenericAttributes.UniqueGroupsGiveOneRecord` | sata.go:706-729 | at most one attribute per group suffices for that |
| `GenericAttributes.ThirtyOrFortyOne` | sata.go:709-714 | two temperature attributes give two different records in two orders |
| `GenericAttributes.CountersByName` | sata.go:715-727 | in every order, LBAs read and written and power cycles are the raw value of some attribute with that name, if there is one, else zero |
| `GenericAttributes.HoursByName` | sata.go:719-725 | in every order, power-on hours come from some Power_On_Hours attribute, if there is one: hours of its nanoseconds for the four duration types, its raw value for every other; else zero |
| `GenericAttributes.TemperatureByName` | sata.go:709-714 | in every order: failure iff an attribute with one of the three names has a non-temperature type; else the temperature of one of them, tenths rounded down or signed low byte, and zero if there is none |
| `Identify.Checksum` | sata.go:30-36 | the wrapping byte sum accepts exactly the blocks whose sum is 0 modulo 256 |
| `Identify.TwosComplementCompletes` | sata.go:30-36 | exactly one last byte completes a page: the two's complement of its sum |
| `Identify.OneByteChangeRejected` | sata.go:30-36 | changing one byte of an accepted block is rejected |
| `Identify.PermutationKeepsSum` | sata.go:30-36 | permuting a block does not change its sum |
| `AtaStrings.FromAtaString` | sata.go:432-443 | the swap loop exchanges each pair, then trims outer white space |
| `AtaStrings.SwapReadsStored` | sata.go:435-439 | a text stored pair by pair, second byte first, is what the swap reads back |
| `AtaStrings.SwapIsAnInvolution` | sata.go:435-439 | swapping is storing pair by pair, and twice gives the buffer back |
| `AtaStrings.SpacePrefixMeaning` | sata.go:441 | a text that starts with an encoded white-space character is cut by exactly that character |
| `AtaStrings.SpacePrefixIsSpace` | sata.go:441 | what is cut at the start is an encoded white-space character |
| `AtaStrings.SpaceSuffixMeaning` | sata.go:441 | the same at the end |
| `AtaStrings.SpaceSuffixIsSpace` | sata.go:441 | the converse at the end |
| `AtaStrings.AtaStringRoundTrip` | sata.go:432-443 | a text padded with spaces and stored pair by pair is read back iff it has no outer white space, for any bytes |
| `AtaStrings.AsciiRoundTrip` | sata.go:432-443 | the same for ASCII, stated on the first and last character |
| `Identify.Capacity` | sata.go:446-493 | sectors are zero iff capacity is unknown, else the larger count or the 48-bit one on large-sector drives; physical size is logical times a power of two; capacity is the exact product iff it fits, so always below 2^48 sectors of at most 64 KiB |
| `Identify.CapabilityBits` | sata.go:446-465 | LBA support is bit 9 of its word and 48-bit support bit 10, whatever the other bits; the capacity is known iff LBA is supported and one of the counts it allows is not zero |
| `SpinDownTimer.EncodeInvertsDecode` | sata_power.go:173-209 | encode(decode(v)) = v iff v is at most 251; 252 and 255 decode to durations that cannot be encoded |
| `SpinDownTimer.DecodeInvertsEncode` | sata_power.go:173-209 | decode(encode(d)) = d, and no byte conversion loses anything |
| `SpinDownTimer.EncodableExactly` | sata_power.go:173-190 | a duration is accepted iff some value 0..251 stands for it |
| `SpinDownTimer.EncodingIsIncreasing` | sata_power.go:176-190 | longer accepted durations get larger values |
| `SpinDownTimer.DecodedTable` | sata_power.go:192-209 | every value of Table 52 in nanoseconds |
| `SpinDownTimer.EncodedTable` | sata_power.go:173-190 | a duration encodes as v iff it is v times 5 seconds (to 240) or v - 240 half hours (241 to 251); the error for every other |
| `Scsi.ScsiSendCdbSense` | scsi_linux.go:203-261 | one SG_IO call with these bytes and direction; its answer is classified as error, written sense prefix, or whole buffer |
| `Scsi.ScsiSendCdb` | scsi_linux.go:198-201 | success iff the answer is accepted, refusals with sense included |
| `Scsi.AcceptedExactly` | scsi_linux.go:242-260 | which answers count as success |
| `Scsi.OtherStatusIgnored` | scsi_linux.go:246-260 | a status other than CHECK CONDITION makes no difference |
| `PassThrough.AtaNonDataCdb` | sata_power_linux.go:8-16 | the bytes of a non-data block |
| `PassThrough.AtaPioInCdb` | sata_linux.go:83-86 | the bytes every data-in block starts from |
| `PassThrough.PioInDecodes` | sata_linux.go:102-110 | a data-in block decodes to a PIO data-in, 28-bit command counted in blocks, with the given registers |
| `PassThrough.HighLbaDecodes` | sata_power_linux.go:159-163 | bytes 7, 9 and 11 of a block are LBA bits 47..24 |
| `PassThrough.NonDataDecodes` | sata_power_linux.go:10-16 | those bytes decode to a non-data, CK_COND, 28-bit command with the given registers and all others zero |
| `PassThrough.DecodeIsInjective` | sata_linux.go:102-110 | the layout decodes two different blocks differently, so a decoded statement fixes every byte |
| `PassThrough.NonDataExactly` | sata_power_linux.go:8-16 | decoding to that command means these sixteen bytes |
| `PassThrough.HighLbaExactly` | sata_power_linux.go:159-163 | the same for a block with bytes 7, 9 and 11 |
| `PassThrough.PioInExactly` | sata_linux.go:102-110 | the same for a data-in block |
| `Sata.SuccessIsReported` | sata_power_linux.go:18-41 | on the answer's fields: a command succeeds iff the written sense (CHECK CONDITION) or the whole buffer (otherwise) carries signature and registers; a mode is returned iff the sector count is one of the seven |
| `Sata.ReportedModeComesBack` | sata_power_linux.go:30-41 | CHECK CONDITION with a report in the written bytes: the command succeeds, and its mode is returned iff it is one of the seven |
| `Sata.BuiltReportComesBack` | sata_sense.go:105-125 | written bytes that are a fixed buffer built from a report give its mode |
| `Sata.BuiltDescriptorComesBack` | sata_sense.go:93-103 | written bytes that are a descriptor buffer give the mode in its first qualifying descriptor |
| `Sata.SilentAnswerFails` | scsi_linux.go:252-260 | an accepted answer without sense fails the command |
| `Sata.SataDevice.SendAndCheck` | sata_power_linux.go:21-26 | one event with exactly these bytes, judged by its sense |
| `Sata.SataDevice.CheckPowerMode` | sata_power_linux.go:30-41 | sends CHECK POWER MODE alone and returns the mode its answer carries |
| `Sata.SataDevice.SetPowerMode` | sata_power_linux.go:43-57 | sends the one command of the mode, or nothing for a mode that cannot be commanded |
| `Sata.SataDevice.SetPowerCondition` | sata_power_linux.go:59-69 | SET FEATURES, EPC feature, the condition in the count, LBA zero |
| `Sata.SataDevice.SetStandbyTimer` | sata_power_linux.go:71-96 | sends nothing for an inexpressible duration, else one STANDBY whose count decodes to the duration |
| `Sata.SataDevice.SetStandbyTimerRaw` | sata_power_linux.go:81-85 | one STANDBY with any count |
| `Sata.SataDevice.SetSpinDownTimer` | sata_power_linux.go:87-96 | one STANDBY with that count |
| `Sata.SataDevice.SetIdleTimer` | sata_power_linux.go:98-123 | the same with IDLE |
| `Sata.SataDevice.SetIdleTimerRaw` | sata_power_linux.go:108-123 | one IDLE with any count |
| `Sata.SataDevice.SetAPMLevel` | sata_power_linux.go:125-141 | sends nothing outside 1..254, else SET FEATURES enable APM with that level |
| `Sata.SataDevice.DisableAPM` | sata_power_linux.go:143-153 | SET FEATURES disable APM, nothing else |
| `Sata.SataDevice.IdleUnload` | sata_power_linux.go:155-170 | what is really sent: IDLE IMMEDIATE, feature 44h, the signature in LBA bits 47..24 |
| `Sata.SataDevice.AtaSendNonData` | sata_power_linux.go:18-27 | one command with all registers zero, judged by its sense |
| `Sata.SataDevice.Sleep` | sata_power_linux.go:172-176 | SLEEP alone |
| `Sata.SataDevice.Standby` | sata_power_linux.go:178-181 | STANDBY IMMEDIATE alone |
| `Sata.SataDevice.Idle` | sata_power_linux.go:183-186 | IDLE IMMEDIATE alone |
| `Sata.UnloadSignatureBytes` | sata_power.go:40-47 | a block has LBA 554E4Ch iff bytes 8, 10 and 12 are 4Ch, 4Eh, 55h |
| `Sata.UnloadBlock` | sata_power_linux.go:155-170 | the sixteen bytes IdleUnload sends |
| `Sata.UnloadSignatureIsMisplaced` | sata_power_linux.go:158-163 | a block that says what IdleUnload's says has LBA bits 23..0 zero |
| `Sata.EpcSubcommandIsMissing` | sata_power_linux.go:59-62 | the subcommand is GO TO POWER CONDITION iff byte 8 says so; for every condition the sent block says 0 |
| `Sata.SataDevice.ReadSMARTData` | sata_linux.go:119-141 | one SMART READ DATA; a page iff accepted, with version and attribute table decoded from its 512 bytes |
| `Sata.SataDevice.SmartReadCdb` | sata_linux.go:120-126 | the bytes of a SMART read, with the C24Fh signature |
| `Sata.SataDevice.ReadGenericAttributes` | sata.go:700-732 | one SMART READ DATA; the record some visiting order of its table gives, or nothing if refused or unparseable |
| `Sata.SataDevice.ReadSMARTThresholds` | sata_linux.go:185-211 | one SMART READ THRESHOLDS; a page iff accepted and its bytes sum to zero |
| `Probe.ScsiInquiry` | scsi_linux.go:87-104 | one INQUIRY for 36 bytes; its data iff accepted |
| `Probe.SendIdentify` | sata_linux.go:78-90 | one IDENTIFY DEVICE block for 512 bytes; its data iff accepted |
| `Probe.IdentifySata` | sata_linux.go:11-62 | OpenSata up to the lookup: failed runs have closed what they opened |
| `Probe.LookupMapping` | sata_linux.go:63-69 | the mapping of the record that model and firmware, read from the IDENTIFY data, select |
| `Probe.TextsOfIdentify` | sata_linux.go:63-64 | data with texts stored in words 23..26 and 27..46 gives the lookup that firmware and model |
| `Probe.OpenSata` | sata_linux.go:11-72 | each run is one of the listed event sequences, with the matching result; the device carries the mapping of the drive's record |
| `Probe.OpenScsi` | scsi_linux.go:12-39 | the same for the SCSI attempt |
| `Probe.Open` | smart.go:34-69 | the cascade: NVMe only for a path with "/nvme", each later attempt only after the earlier ones failed, every error kept |
| `Probe.ContainsMeaning` | smart.go:41 | the path test holds iff the path is some prefix, the text and some suffix |
| `ProbeTheorems.WatchMeaning` | smart.go:34-69 | a run that passes the event-by-event watcher is safe at every event |
| `ProbeTheorems.OpenIsSafe` | smart.go:34-69 | every run: never two descriptors, commands only to the open one, no NVMe command without "/nvme", no pass-through before an INQUIRY of type 0; at the end exactly the returned device is open, or nothing |
| `ProbeTheorems.OpenIsSafeOnTheWire` | smart.go:34-69 | on paths and bytes: the NVMe attempt is made iff "/nvme" occurs in the path, no NVMe command without it, and opcode 85h only after a standard INQUIRY on the same open descriptor said type 0 |
| `ProbeTheorems.CascadeExactly` | smart.go:34-69 | the NVMe device is returned iff it was identified, SATA is tried iff it was not, SCSI iff neither was opened; a failure says whether the NVMe attempt was made and how it ended |
| `ProbeTheorems.SataOpensExactly` | sata_linux.go:11-72 | every run of OpenSata: it succeeds iff the open was granted, the INQUIRY reported type 0, INQUIRY and every IDENTIFY had a nil error, and the lookup met no bad pattern |
| `ProbeTheorems.ScsiOpensExactly` | scsi_linux.go:12-39 | every run of OpenScsi: it succeeds iff the open was granted and the INQUIRY had a nil error and reported type 0 |
| `ProbeTheorems.SataBlocks` | sata_linux.go:11-62 | a successful run of OpenSata opens, sends one INQUIRY and, byte for byte, one IDENTIFY DEVICE if the vendor field is "ATA     ", two otherwise, and nothing else |
| `ProbeTheorems.RefusedIdentifyStillOpens` | sata_linux.go:42-61 | in every run, a type 0 device that refuses each IDENTIFY with sense data, or is busy, is opened as SATA, if the lookup meets no bad pattern |

## Left out

- The ioctl itself, header memory layout and timeouts: the kernel is an arbitrary partner.
- NVMe admin commands: one event that succeeds or fails; the NVMe log and namespace decoding are not modelled.
- The other platforms, the attribute generator and the contents of the attribute database, apart from the byte orders its records ask for.
- The regular expression engine: an arbitrary function from pattern and text to a verdict or an error.
- `GenericAttributes.AggregateAttributes`: does not model how Go converts float64 hours to uint64, which for negative durations is up to the implementation; the conversion is a parameter.
- `DriveDb.FindAttributesMapping`: presets are values, because no code writes to them; the default table and the copy are objects. `maps.Copy` is one assignment.
- `Identify.Capacity`: starts from decoded fields, with the two logical-size words as one number.
- Reading IDENTIFY data into its struct, apart from the model and firmware bytes the lookup needs.
- Error message text, `String` methods, single-bit capability getters, device statistics, SCSI capacity and serial number: each a fact about one line.
- The drive's own power state: nothing in this code decides it.
