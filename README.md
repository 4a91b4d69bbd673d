# go-tz: the TZif decoder and the moment-timezone packer, in Dafny

This project models the core of go-tz.

- **Package `tz` (`parse.go`).** `ParseLocation` decodes a TZif file into a `Location`: a name, a list of zones and a list of transitions. It does this through a small cursor, `dataIO`.
- **Package `moment` (`moment/moment.go`).** `Packed` writes a `Location` in the packed format of moment-timezone.js, with the help of `toBase60` and `packMinutes`. The format has five `|`-separated fields: name, abbreviations, offsets, zone indices and untils.

There are four modules:

- **`GoInt` (goint.dfy).** Go's `int64`, shared by the other modules.
- **`Tz` (tz.dfy).**
  - `DataIO` is a class with the fields `p` and `error`, whose methods update them in place.
  - `Decode` is the specification of the whole format as a function of the bytes.
  - `ParseLocation` reads step by step, as the source does, and is proved equal to `Decode`. Its helper methods `ReadCounts`, `ReadBlock`, `BuildLocation`, `ReadZones` and `ReadTransitions` are its loops and its section reads.
- **`Base60` (base60.dfy).**
  - `Base60`/`SignedBase60` is the specification of `toBase60`.
  - `ToBase60` is the buffer-filling loop of the source, working on an `array<char>`.
  - `PackMinutes` is `packMinutes`.
  - `FromBase60` and `UnpackSeconds` are independent readers, used to state round trips.
- **`Moment` (moment.dfy).**
  - `Pack` is the specification of `Packed`. It is built from one function per phase: `DedupOf`, `Remap`, `UsedZones`, `Abbrevs`/`Offsets`, `Kept`/`Untils`/`IndexTexts`/`UntilTexts`, and `Format`.
  - `Packed` is the method of the source. It runs each of its loops as a method (`DedupZones`, `RenumberTransitions`, `KeepUsedZones`, `ZoneLists`, `IndicesAndUntils`), keeps the Go maps as Dafny maps and sets, and is proved equal to `Pack`.

Go integer semantics are written out:

- `int64` values, and Go `int` values that hold times or offsets, are the subset type `int64`. Go `int` values that are counts, lengths or positions (the six header counts, the `dedupMap` and `usedMap` values, `prevZoneIdx`) are Dafny `nat` or `int`. This is exact because Go's `int` is taken to be 64 bits wide (see "## Left out").
- `int32(u)` is `Int32`.
- `uint8(x)` is `Uint8`, which keeps the low eight bits.
- int64 subtraction and negation wrap around, via `Wrap64` and `Neg64`.
- Go's `/` truncates toward zero; this is `Quot`.

A `panic` is modelled as a result value, `ZoneNotFound`. The error `errBadData` is the value `BadData`.

The code behaves as follows, and the model follows it:

- **Only the version-1 block is decoded.** The code reads only the first (32-bit) data block, for versions 2 and 3 as well. It also never rejects a count for size, since Go's `int` holds any 32-bit count.
- **No clipping or synthetic transition in `Packed`.** `Packed` does not clip transitions to the 32-bit range and does not choose or prepend a start-of-time zone. Zones are numbered purely in order of first use.
- **The first until is absolute.** `lastTimeStamp` starts at 0 and is not set by the first written transition. So the first until is the absolute time of the second written transition, not a difference (`Moment.UntilAt`).
- **packMinutes loses the sign of small negatives.** For seconds in (-60, 0) the minutes field is omitted, and the `-` goes with it. So unpacking the text does not give back the number: -30 and 30 both give `.u` (`Base60.UnpackPackMinutes`, `Base60.PackMinutesSignLoss`).

## Model

| member | source | states |
|---|---|---|
| Tz.DataIO.constructor | parse.go:85 | a fresh cursor holds the whole buffer, with no error |
| Tz.DataIO.Read | parse.go:39-48 | with n bytes left: returns exactly the next n bytes and keeps the rest. Otherwise: returns nothing, empties the buffer and sets `error`. `error` is never cleared, and it is set exactly when reads have asked for more than the buffer held |
| Tz.DataIO.Big4 | parse.go:50-57 | succeeds iff 4 bytes remain, and then returns their big-endian value. Otherwise returns 0 and leaves the cursor empty with `error` set |
| Tz.DataIO.Byte | parse.go:59-66 | succeeds iff a byte remains, and then returns it. Otherwise returns 0 and leaves the cursor empty with `error` set |
| Tz.BigEndian32OfBytes32 | parse.go:56 | big4 decodes any 32-bit value from its four big-endian bytes (round trip) |
| Tz.Bytes32OfBigEndian32 | parse.go:56 | any four bytes are the big-endian encoding of what big4 decodes from them (the other direction) |
| Tz.Int32 | parse.go:165 | `int32(n)` lies in [-2^31, 2^31), is congruent to n modulo 2^32, and is negative iff the top bit is set |
| Tz.BigEndian32 | parse.go:56 | four bytes read big-endian give a value below 2^32 |
| Tz.PrefixBeforeNul | parse.go:69-76 | the result is no longer than p, and ends at the end of p or just before a NUL |
| Tz.PrefixBeforeNulChars | parse.go:69-76 | every byte kept is nonzero and becomes the character at the same position, so the result holds no NUL |
| Tz.PrefixBeforeNulAt | parse.go:70-75 | with the first NUL at i (or i = the length), the result is the text of p[..i] |
| Tz.Text | parse.go:72-75 | `string(p)` has one character per byte, each with that byte's value |
| Tz.ByteString | parse.go:69-76 | the scan returns exactly the prefix before the first NUL |
| Tz.HeaderCounts | parse.go:113-120 | the six counts are the big-endian words at bytes 20 + 4k, each below 2^32 |
| Tz.ZonesOf | parse.go:158-175 | one zone per whole 6-byte record |
| Tz.ZonesOfAt | parse.go:158-175 | zone k is decoded from record k and the abbreviation table |
| Tz.ZoneAt | parse.go:162-174 | the zone of one record: its offset is in the int32 range, isDST holds iff the record's fifth byte is nonzero, and its name fits in the abbreviation table from the record's last byte on |
| Tz.TransitionsOf | parse.go:178-199 | one transition per zone index byte |
| Tz.TransitionsOfAt | parse.go:178-199 | transition k is decoded from time word k and index byte k alone |
| Tz.TransAt | parse.go:182-189 | one transition: its time is in the int32 range and its zone index is the index byte unchanged |
| Tz.DecodeSections | parse.go:155-208 | an abbreviation index outside the table gives BadData. Otherwise the result is a Location iff every transition's zone index is below the number of zones. A Location keeps the name, has one zone per whole 6-byte record, and has one transition per index byte (just the fake one when there are none) |
| Tz.SectionsIn | parse.go:122-132 | the kept sections have the lengths the counts give, with 4 time bytes per transition |
| Tz.Decode | parse.go:84-211 | the specification of ParseLocation as a function of the bytes: a success has a valid header and a fitting block, keeps the caller's name and has at least one transition |
| Tz.ParseLocation | parse.go:84-211 | the reader returns exactly `Decode(name, data)` |
| Tz.ReadCounts | parse.go:113-120 | the counts loop succeeds iff the 44-byte header is present, and then yields the six header counts with the cursor at byte 44 and no error. On failure the cursor is empty with `error` set |
| Tz.ReadBlock | parse.go:122-149 | after the seven section reads the cursor has advanced by the whole block size, and `error` is set exactly when the block does not fit (discarded sections included). Otherwise the reads yield the sections `Decode` uses |
| Tz.BuildLocation | parse.go:155-210 | the record loops and the fake transition give exactly the Location the sections describe, or BadData |
| Tz.ReadZones | parse.go:158-175 | succeeds iff every abbreviation index is inside the table, and then returns the decoded zones |
| Tz.ReadTransitions | parse.go:177-199 | succeeds iff every zone index is below the zone count, and then returns the decoded transitions |
| Tz.RejectsBadHeader | parse.go:87-120 | a missing magic "TZif", a version byte other than 0, '2' or '3', or a header shorter than 44 bytes gives BadData |
| Tz.RejectsShortBlock | parse.go:122-149 | a buffer too short for its data block gives BadData, even when only discarded sections are missing |
| Tz.RejectsBadAbbrevIndex | parse.go:171-173 | a zone record whose abbreviation index is outside the table gives BadData |
| Tz.RejectsBadZoneIndex | parse.go:186-188 | a transition whose zone index is not below the zone count gives BadData |
| Tz.DecodedSections | parse.go:155-208 | a success has a valid header, fitting block and valid indices, and its zones and transitions are those of the sections |
| Tz.ParsedLocation | parse.go:155-210 | a success keeps the name and has one zone per record. With no transitions in the file, Tx is exactly [{alpha, 0}], even with no zones. Otherwise Tx has one entry per transition, each naming an existing zone |
| Tz.ParsedTransitionAt | parse.go:178-189 | transition i of a success is the sign-extended big-endian word i after the header, so its time is in the int32 range. Its zone index is byte i after the times |
| Tz.ParsedZoneAt | parse.go:158-175 | zone i of a success: the offset is the sign-extended word of record i (so in the int32 range), isDST is whether the next byte is nonzero, and the name is the abbreviation table from the record's index byte, cut at the first NUL |
| Tz.CountIn | parse.go:113-120 | count k is the big-endian value of the four bytes at 20 + 4k |
| Tz.FixedUtcParses | parse.go:84-210 | a concrete version-1 file with one UTC zone record and no transitions parses to that zone and the single transition to zone 0 at the start of time |
| Base60.DigitAt | moment/moment.go:12 | the alphabet is 0-9, then a-z, then A-Z |
| Base60.DigitValueOfDigit | moment/moment.go:12 | each digit character reads back as its position in the alphabet |
| Base60.Base60Digits | moment/moment.go:24-32 | the base-60 rendering uses only the first 60 characters of the alphabet |
| Base60.Base60NoLeadingZero | moment/moment.go:24-32 | the rendering starts with '0' only when it is "0", i.e. only for 0 |
| Base60.FromBase60OfBase60 | moment/moment.go:20-34 | reading the rendering back in base 60 gives the number |
| Base60.Base60SingleDigit | moment/moment.go:30-32 | the rendering is one character iff the number is below 60, and then it is `digits[n]` |
| Base60.Base60Length | moment/moment.go:22 | a number below 60^k has at most k digits |
| Base60.Base60 | moment/moment.go:20-34 | the digits of a magnitude are never empty, and are a single digit iff it is below 60 |
| Base60.Base60OfInt64 | moment/moment.go:22 | the magnitude of any int64 (up to 2^63) has at most 11 digits, so the 14-byte buffer suffices |
| Base60.SignedBase60Properties | moment/moment.go:14-36 | the text starts with '-' iff n < 0, reads back as n, and is `digits[n]` alone for 0 <= n < 60 |
| Base60.ToBase60 | moment/moment.go:14-36 | the loop over the byte buffer writes exactly the signed base-60 rendering, including for -2^63 |
| Base60.SignedBase60Avoids | moment/moment.go:14-36 | toBase60 writes only alphabet characters and '-' |
| Base60.SignedBase60 | moment/moment.go:14-36 | the rendering toBase60 writes: never empty, and it starts with '-' iff n < 0 |
| Base60.Quot | moment/moment.go:39 | Go's `sec / 60` truncates toward zero: the quotient has the sign of a, and the remainder a - q*b lies in [0, b) for a >= 0 and in (-b, 0] for a < 0 |
| Base60.PackMinutes | moment/moment.go:38-53 | packMinutes: never empty. '.' appears iff sec is not a whole number of minutes. The minutes field is left out (the text starts with '.') iff 0 < abs(sec) < 60. The text starts with '-' iff sec <= -60 |
| Base60.PackMinutesParts | moment/moment.go:39-43 | `sec - mins*60` lies in (-60, 60), has the sign of sec (as do the minutes), and sec = 60*mins + fraction |
| Base60.UnpackPackMinutes | moment/moment.go:38-53 | reading the packed text back gives sec, except that seconds in (-60, 0) come back positive |
| Base60.PackMinutesSignLoss | moment/moment.go:45-51 | -30 and 30 seconds both pack to ".u" |
| Base60.PackMinutesAvoids | moment/moment.go:38-53 | packMinutes writes only alphabet characters, '-' and '.' |
| Moment.Wrap64 | moment/moment.go:134 | int64 arithmetic leaves in-range values unchanged |
| Moment.Wrap64Unique | moment/moment.go:134 | the wrapped value is the one int64 congruent to x modulo 2^64 |
| Moment.Neg64 | moment/moment.go:114 | `-int64(x)` is -x, except that -2^63 stays -2^63 |
| Moment.Uint8 | moment/moment.go:91-93 | `uint8(x)` is x for x below 256 |
| Moment.UsedMapInverse | moment/moment.go:86-93 | usedMap maps each used merged zone back to its own position in usedIdx, which is the newIndex its transitions get |
| Moment.FindSame | moment/moment.go:62-68 | the inner search returns a matching merged zone, or the length when it finds none |
| Moment.FindSameFirst | moment/moment.go:62-68 | no merged zone before the one found has the same name and offset |
| Moment.FindDedup | moment/moment.go:61-68 | the inner loop finds exactly FindSame's position, and `found` says whether it is a match |
| Moment.DedupOf | moment/moment.go:57-74 | one dedup entry per zone, and no more merged zones than zones |
| Moment.DedupIndex | moment/moment.go:57-74 | zone i maps to a merged zone with its name and offset, at a position no greater than i |
| Moment.DedupOrigin | moment/moment.go:72-73 | every merged zone is an input zone, taken whole, that maps to it |
| Moment.DedupDistinct | moment/moment.go:57-74 | the merged zones have pairwise different (name, offset) |
| Moment.DedupKeepsFirst | moment/moment.go:69-73 | a zone with no earlier zone of the same name and offset becomes its own merged zone |
| Moment.DedupSameIndex | moment/moment.go:62-66 | zones with the same name and offset map to the same merged zone |
| Moment.DedupIgnoresDST | moment/moment.go:63 | changing only isDST flags changes no dedup entry |
| Moment.DedupZones | moment/moment.go:57-74 | the first loop builds exactly the merged zones, and a dedupMap whose keys are the zone positions and whose values are the dedup entries |
| Moment.FirstMissing | moment/moment.go:82-85 | the first transition whose index has no dedup entry, or the length when there is none |
| Moment.FirstMissingFirst | moment/moment.go:81-85 | every transition before it has a dedup entry. It equals the length iff all do |
| Moment.PositionDistinct | moment/moment.go:87-93 | in usedIdx (no repeats) a zone's recorded position is where it is |
| Moment.Remap | moment/moment.go:76-99 | one renumbered transition per transition |
| Moment.RemapUsed | moment/moment.go:86-94 | usedIdx has no repeats and at most 256 entries, so the uint8 conversion loses nothing |
| Moment.RemapUsedBelow | moment/moment.go:104-106 | every usedIdx entry indexes dedupZones |
| Moment.RemapAt | moment/moment.go:95-98 | transition i keeps its time. Its new index points into usedIdx, at its merged zone |
| Moment.RemapOrigin | moment/moment.go:87-91 | every used zone is first named by some transition, with no earlier transition naming it |
| Moment.RemapFirstUse | moment/moment.go:86-94 | zones are numbered in order of first use: index c appears before any larger index |
| Moment.UseZone | moment/moment.go:86-94 | one lookup keeps usedIdxMap and usedMap in step with usedIdx, appends a new merged zone, and gives its position. With usedIdx free of repeats it stays so, and usedMap sends every entry of usedIdx back to its own position |
| Moment.RenumberTransitions | moment/moment.go:76-99 | the second loop fails iff some index has no dedup entry, reporting the first such index. Otherwise it yields exactly the `Remap` of the transitions |
| Moment.KeepUsedZones | moment/moment.go:101-107 | the third loop yields merged zone usedIdx[k] for each k |
| Moment.UsedZones | moment/moment.go:101-107 | one zone per entry of usedIdx, each of them a merged zone |
| Moment.Abbrevs | moment/moment.go:109-115 | one abbreviation per used zone (entry k by AbbrevsAt) |
| Moment.Offsets | moment/moment.go:109-115 | one offset text per used zone (entry k by OffsetsAt) |
| Moment.ZoneLists | moment/moment.go:109-115 | the fourth loop yields the names, and packMinutes of each negated offset, of the used zones |
| Moment.AbbrevsAt | moment/moment.go:112-113 | abbreviation k is the name of used zone k |
| Moment.OffsetsAt | moment/moment.go:112-114 | offset k is packMinutes of minus the offset of used zone k |
| Moment.Kept | moment/moment.go:124-129 | no more transitions are written than given, and at least one when any is given |
| Moment.KeptDropsRepeats | moment/moment.go:122-129 | the written transitions are the input without back-to-back repeats of an index. The first is kept, no two adjacent ones share an index, and the last has the last input's index |
| Moment.KeptFrom | moment/moment.go:124-129 | every written transition is an input transition |
| Moment.IndexTextsAt | moment/moment.go:129 | index text k is toBase60 of written transition k's index |
| Moment.IndexTexts | moment/moment.go:129 | one index text per written transition (entry k by IndexTextsAt) |
| Moment.Untils | moment/moment.go:130-136 | there is one until fewer than written transitions |
| Moment.UntilAt | moment/moment.go:130-136 | the first until is the absolute time of the second written transition. Each later one is the wrapped difference from the previous written time |
| Moment.Until | moment/moment.go:134-135 | when the two times involved are in the int32 range, as in a parsed file, the until plus the previous written time (0 for the first) is exactly the new time, with no wrap-around |
| Moment.UntilsSum | moment/moment.go:120-136 | with int64 wrap-around, the first j untils add up to the time of written transition j |
| Moment.UntilsSumExact | moment/moment.go:120-136 | with times in the int32 range the sums are exact |
| Moment.UntilTextsAt | moment/moment.go:136 | until text k is packMinutes of until k |
| Moment.UntilTexts | moment/moment.go:136 | one until text per until (entry k by UntilTextsAt) |
| Moment.WriteKept | moment/moment.go:124-137 | one pass of the last loop from the state after the written transitions is the state after one more step of Kept |
| Moment.Write | moment/moment.go:124-137 | one pass always leaves prevZoneIdx at the transition's index, writes at most one index and one until, and keeps the loop's count invariant (no index while `first` holds, then one until fewer than indices) |
| Moment.WriteAll | moment/moment.go:120-137 | the loop from its initial state ends with prevZoneIdx the last transition's index (-1 with none), writes at most one index per transition, and keeps the count invariant |
| Moment.WriteAllKept | moment/moment.go:120-137 | the last loop, run over all transitions, has written exactly the index texts and untils of Kept |
| Moment.IndicesAndUntils | moment/moment.go:117-137 | the last loop yields the index texts of the written transitions and the packed untils between them |
| Moment.Join | moment/moment.go:141-144 | strings.Join: a single element is returned as is, and the result begins with the first element |
| Moment.JoinAvoids | moment/moment.go:141-144 | joining strings without a character, with a separator without it, gives a string without it |
| Moment.Format | moment/moment.go:139-145 | the Sprintf of Packed: the text starts with the name unchanged, then a bar |
| Moment.SplitJoin | moment/moment.go:139-145 | joining strings without the separator and splitting again gives them back |
| Moment.FormatIsJoin | moment/moment.go:139-145 | the Sprintf of five fields with bars between them is their strings.Join with a bar |
| Moment.ZoneFieldsAvoidBar | moment/moment.go:109-115 | with no bar in any abbreviation, the abbreviations and offsets fields hold no bar |
| Moment.TransFieldsAvoidBar | moment/moment.go:117-137 | the indices and untils fields never hold a bar |
| Moment.FormatSplits | moment/moment.go:139-145 | with no bar in the name or an abbreviation, the output splits at the bars into exactly the five fields |
| Moment.Pack | moment/moment.go:56-146 | the specification of Packed as a function of the Location: a panic reports a zone index that names no zone, and a packed text starts with the name and a bar |
| Moment.PackRemap | moment/moment.go:76-107 | the renumbered transitions' used zones all index the merged zones |
| Moment.PackNotFound | moment/moment.go:81-85 | Packed panics iff some transition's index has no zone, and then it reports the first such index |
| Moment.PackParsed | moment/moment.go:81-85 | for a Location that ParseLocation returns, Packed panics iff the file has no zones |
| Moment.UsedZoneOrigin | moment/moment.go:101-107 | each zone written is an input zone |
| Moment.PackUsedZones | moment/moment.go:76-115 | the zones written have pairwise different (name, offset) and number at most 256. Every renumbered index names one of them, and the first transition names zone 0 |
| Moment.PackFields | moment/moment.go:56-145 | with no bar in the name or an abbreviation, Packed's text has five bar-separated fields: the name unchanged, the abbreviations, the offsets, the indices and the untils |
| Moment.PackFixedZone | moment/moment.go:56-146 | a Location with one zone and one transition to zone 0, such as a fixed-offset file parses to, packs to its name, that zone's abbreviation, its negated offset in base-60 minutes, the index 0 and an empty untils field |
| Moment.FixedUtcPacks | moment/moment.go:56-146 | that fixed UTC file, parsed and then packed, gives the name, the abbreviation UTC, the offset 0, the index 0 and an empty untils field |
| Moment.KeptInt32 | moment/moment.go:124-129 | writing fewer transitions keeps times in the int32 range |
| Moment.ParsedRemapInt32 | moment/moment.go:95-98 | the renumbered transitions of a parsed file whose header counts at least one transition time have int32 times |
| Moment.PackedUntilsExact | moment/moment.go:117-137 | for a parsed Location, the untils Packed writes add up, without wrap-around, to each written transition's time |
| Moment.Packed | moment/moment.go:56-146 | the method returns exactly `Pack(l)`: the packed text, or the zone-not-found panic |

## Left out

- Go's `int` is taken to be 64 bits wide, as on the 64-bit targets. On a 32-bit target `int(nn)` of a count of 2^31 or more (parse.go:119) would be negative and `d.read` would panic on `d.p[0:n]` (parse.go:45), and the products `n[NTime]*4`, `n[NZone]*6` and `n[NLeap]*8` (parse.go:123, 129, 135) could wrap. The model covers neither.

- The version-2/3 64-bit data block. The source never reads it (parse.go:151-153). The leap-second pairs and the standard/wall and UT/local indicators are read and discarded (parse.go:134-145), so the model checks only that they fit in the buffer (`BlockFits`).
- Loading zone files (`tz.TZData`, the zoneinfo directory) and the test files. They are file access and test code.
- `fmt.Sprintf` and `strings.Join` are modelled as sequence concatenation (`Format`, `Join`). `Split` exists only to state what the output contains.
- `panic` is modelled as the result value `ZoneNotFound(index)`, not as a run-time abort. The message text "zone not found: ..." is not modelled.
- Tz.DataIO: Go reads return subslices that share the caller's array. The model returns copied sequences, so that aliasing is not modelled; no caller writes to a returned slice.
- Tz.ReadZones, Tz.ReadTransitions: the cursors `zonedata` and `txtimes` are built over the sections `ReadBlock` returned, not over sub-slices of one array.
- Moment.Packed: the loops of `Packed` are helper methods of one method each, called in order, and each Go map is a Dafny `map` or `set`. Go's map iteration order is never used by the source, so it is not modelled.
- Base60.PackMinutes: `packMinutes` is pure arithmetic and is a function. Where it calls `toBase60` it uses `SignedBase60`, which `Base60.ToBase60` is proved to compute.
- Moment.PackFields: stated for names and abbreviations without '|'. A '|' inside the name or an abbreviation would make the output ambiguous, and the source does not guard against it.
