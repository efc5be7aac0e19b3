# Elora Myriad card and scroll mode, in Dafny

This project models two parts of the splitkb Elora keyboard firmware.

**The Myriad card driver** (`keyboards/splitkb/elora/rev1/myriad.c`). A Myriad expansion card carries a
2 kB I2C EEPROM. It holds a 12-byte header followed by a payload of
type/length/value records:

- The header is the magic "MYR", a version major.minor.patch, an
  Adler-32 checksum of the payload and the payload length, all packed
  little-endian.
- The driver reads the EEPROM page by page, one transfer per 256-byte
  page, addressing page i at device 0x50 + i.
- It then checks the header and the checksum, finds the identity
  record (tag 1, five bytes: vendor, product, revision) and maps it to
  a card type.
- The card type is cached. A one-shot initialisation configures the
  card's lines as pulled-up inputs.

Three hooks use the result:

- the matrix hook puts the card's keys in matrix row 5;
- the encoder hook puts the encoder's A/B lines in pads 6 and 7;
- the pointing-device driver turns the joystick's two ADC readings
  into mouse motion, at most once per 10 ms.

**The keymaps' scroll mode** (`keyboards/splitkb/elora/keymaps/vial/keymap.c` and `keyboards/splitkb/elora/keymaps/custom/keymap.c`). While the scroll
key is held, each half's pointing-device motion becomes single-step
wheel pulses, and the cursor does not move. A half pulses when its
larger axis deflection times the milliseconds since its last pulse
exceeds 640. The custom keymap's scroll state, helpers and report
combiner are textually the same code as the Vial keymap's, so they are
modelled once (module `ScrollMode`). The custom keymap's own key
handler, which adds six macro keys, is module `CustomKeymap`.

Modules:

- `Wrappers`: `Option`.
- `Bytes`: bytes, 16/32-bit words and little-endian decoding.
- `MyriadFormat`: the EEPROM format as values:
  - the header and its acceptance rule;
  - Adler-32 as a function, with its closed form from section 2.2 of
    RFC 1950;
  - the record scan, with a reference definition over a list of
    records;
  - the identity record and the identity-to-card mapping.
- `MyriadDecoder`: the driver's loops, as methods proved equal to
  those functions:
  - the paged reader;
  - the checksum loop;
  - the record scan;
  - the identity copy;
  - one detection run.
- `Platform`: the mouse report and the wrapping 16-bit millisecond
  timer.
- `Joystick`: the joystick sample filter.
- `MyriadCard`: class `Myriad`, holding the driver's static state
  (cached card, init latch, configured pins, joystick timer) and the
  three hooks.
- `ScrollMode`: class `ScrollState` (mode flag and two timers) and
  the per-half pulse rule.
- `CustomKeymap`: the custom keymap's key handler.

The hardware is an input. `Hardware` bundles:

- the level of the presence pin;
- the bus, a function from a transfer to either failure or exactly the
  requested bytes;
- six "stale" bytes.

The stale bytes stand for memory just past the bytes read, which the
record scan and the identity copy can reach: the length byte of an
entry at the last position, and up to five identity bytes. That memory
is the rest of the uninitialised stack buffer or, for an image of 2043
bytes or more, partly memory past the buffer. The GPIO levels, ADC readings and the
timer value are parameters of each hook.

The joystick filter divides by 16 with C's truncation toward zero, and
ADC readings are 0..1023. The consequences:

- the ±127 clamp (myriad.c lines 313-316) never acts: full deflection
  gives about ±32 (`Joystick.SampleRange`, `Joystick.SampleExtremes`);
- the dead-zone test (myriad.c lines 302-307) is subsumed by the
  division by 16: any deflection below 16 already gives 0
  (`Joystick.DeadZoneSubsumed`).

Against an EEPROM image (`MyriadDecoder.MemoryBus`), the bus answers
only the eight block addresses 0x50 to 0x57 of a 2 kB part. Every read
shorter than the whole part returns the image's prefix; a read of all
2048 bytes fails (see "## Findings").

Detection never yields the encoder card, because no identity maps to
it (`MyriadDecoder.DetectOutcomes`). The encoder branches of the hooks
are modelled as written all the same.

## Model

| member | source | states |
|---|---|---|
| Bytes.Le16 | keyboards/splitkb/elora/rev1/myriad.c:36-38 | a packed little-endian 16-bit field: low byte first, high byte second |
| Bytes.Le32 | keyboards/splitkb/elora/rev1/myriad.c:27-34 | a packed little-endian 32-bit field is two little-endian halves, low half first |
| Bytes.Le16RoundTrip | keyboards/splitkb/elora/rev1/myriad.c:36-38 | encoding a 16-bit value to two bytes and decoding gives the value back |
| Bytes.Le16BytesRoundTrip | keyboards/splitkb/elora/rev1/myriad.c:36-38 | decoding two bytes and encoding gives the bytes back |
| Bytes.Le32RoundTrip | keyboards/splitkb/elora/rev1/myriad.c:27-34 | encoding a 32-bit value to four bytes and decoding gives the value back |
| Bytes.Le32BytesRoundTrip | keyboards/splitkb/elora/rev1/myriad.c:27-34 | decoding four bytes and encoding gives the bytes back |
| MyriadFormat.DecodeHeader | keyboards/splitkb/elora/rev1/myriad.c:27-34 | the 12-byte packed header: magic at 0-2, major/minor/patch at 3-5, checksum at 6-9, payload length at 10-11 |
| MyriadFormat.EncodeHeader | keyboards/splitkb/elora/rev1/myriad.c:27-34 | a header encodes to exactly 12 bytes |
| MyriadFormat.HeaderRoundTrip | keyboards/splitkb/elora/rev1/myriad.c:27-34 | decode(encode(h)) == h |
| MyriadFormat.HeaderBytesRoundTrip | keyboards/splitkb/elora/rev1/myriad.c:27-34 | encode(decode(b)) == b for every 12-byte image |
| MyriadFormat.VerifyHeader | keyboards/splitkb/elora/rev1/myriad.c:65-92 | an accepted header has major 1, minor 0, and 12 + payload length fits the 2048-byte EEPROM |
| MyriadFormat.HeaderAcceptance | keyboards/splitkb/elora/rev1/myriad.c:65-92 | on raw bytes, acceptance iff bytes 0-2 are 'M','Y','R', byte 3 is 1, byte 4 is 0 and the little-endian length at 10-11 is at most 2036 |
| MyriadFormat.HeaderIgnoresPatchAndChecksum | keyboards/splitkb/elora/rev1/myriad.c:65-92 | the patch version and the checksum field never affect acceptance |
| MyriadFormat.BadMagicRejected | keyboards/splitkb/elora/rev1/myriad.c:70-75 | a header without the "MYR" magic is rejected |
| MyriadFormat.Adler | keyboards/splitkb/elora/rev1/myriad.c:100-110 | both running sums stay below the modulus 65521 |
| MyriadFormat.AdlerStep | keyboards/splitkb/elora/rev1/myriad.c:108-109 | one byte of the loop: a += byte, b += a, both modulo 65521 |
| MyriadFormat.ChecksumWord | keyboards/splitkb/elora/rev1/myriad.c:111 | the 32-bit word b shifted left by 16 and or-ed with a, written b * 65536 + a |
| MyriadFormat.ChecksumWordSplit | keyboards/splitkb/elora/rev1/myriad.c:111 | the combined word (b shifted left 16, or a) has a in its low half and b in its high half |
| MyriadFormat.ModAdd | keyboards/splitkb/elora/rev1/myriad.c:108-109 | reducing modulo 65521 after every step gives the same value as reducing once at the end |
| MyriadFormat.ModDistinct | keyboards/splitkb/elora/rev1/myriad.c:100 | two values closer than 65521 stay distinct modulo 65521 |
| MyriadFormat.AdlerIsRfc1950 | keyboards/splitkb/elora/rev1/myriad.c:94-110 | the loop computes Adler-32 as in section 2.2 of RFC 1950: a = 1 + sum of the bytes, b = sum of the running a values, both mod 65521 |
| MyriadFormat.ModStep | keyboards/splitkb/elora/rev1/myriad.c:108-109 | one loop step keeps a equal to 1 + byte sum and b equal to the sum of the a values, both modulo 65521 |
| MyriadFormat.SumUpdate | keyboards/splitkb/elora/rev1/myriad.c:106-110 | replacing one byte changes the byte sum by exactly the difference |
| MyriadFormat.SumChanges | keyboards/splitkb/elora/rev1/myriad.c:106-110 | replacing one byte with a different value changes the running sum a |
| MyriadFormat.CorruptionDetected | keyboards/splitkb/elora/rev1/myriad.c:95-114 | changing any single payload byte changes a, and so changes the 32-bit checksum |
| MyriadFormat.Scan | keyboards/splitkb/elora/rev1/myriad.c:118-145 | a hit returns a payload offset at least two past the start and at most maximum + 1, so the five identity bytes copied from it lie within the six bytes past the limit |
| MyriadFormat.ScanMeaning | keyboards/splitkb/elora/rev1/myriad.c:126-135 | a hit returns the offset just after a byte pair holding the tag and the length; a wrong-length answer means some position before the maximum holds the tag followed by another length |
| MyriadFormat.Sentinel | keyboards/splitkb/elora/rev1/myriad.c:131-144 | locate_entry's int16 result: the payload offset when found, -2 for the wrong length, -1 when nothing is found |
| MyriadFormat.ScanSkip | keyboards/splitkb/elora/rev1/myriad.c:136-140 | a record with another tag is stepped over by its tag byte, length byte and payload |
| MyriadFormat.ScanHit | keyboards/splitkb/elora/rev1/myriad.c:127-135 | at a record with the tag, the scan stops with the same answer as the lookup over the records |
| MyriadFormat.SerializedStreamIn | keyboards/splitkb/elora/rev1/myriad.c:118-145 | a serialised list of records copied into the buffer lies there record by record, each tag and length byte followed by its payload |
| MyriadFormat.ScanMatchesStream | keyboards/splitkb/elora/rev1/myriad.c:118-145 | over records laid out in the buffer up to the maximum, the scan answers as the lookup over the record list |
| MyriadFormat.ScanMatchesLookup | keyboards/splitkb/elora/rev1/myriad.c:118-145 | on a serialised list of records, the scan gives the same answer as a lookup over the list: first record with the tag, found or wrong length, else not found |
| MyriadFormat.EncodeIdentity | keyboards/splitkb/elora/rev1/myriad.c:36-40 | the identity record occupies five bytes |
| MyriadFormat.IdentityRoundTrip | keyboards/splitkb/elora/rev1/myriad.c:36-40 | decoding an encoded identity gives it back |
| MyriadFormat.DecodeIdentity | keyboards/splitkb/elora/rev1/myriad.c:36-40 | the packed identity: vendor little-endian at 0-1, product at 2-3, revision at 4 |
| MyriadFormat.CardOf | keyboards/splitkb/elora/rev1/myriad.c:184-192 | vendor 1 with product 1 or 2 is the joystick, vendor 1 product 3 the switches, anything else unknown; never the encoder |
| MyriadDecoder.PagePlan | keyboards/splitkb/elora/rev1/myriad.c:48-59 | one transfer per page: device (0x50 + i) shifted left once, register 0, at most 256 bytes; transfers are contiguous from offset 0 and end exactly at the length, the last one possibly empty |
| MyriadDecoder.NumPages | keyboards/splitkb/elora/rev1/myriad.c:48 | length / 256 + 1 transfers, so a multiple of 256 gets a final empty one |
| MyriadDecoder.PageTransfer | keyboards/splitkb/elora/rev1/myriad.c:51-59 | transfer i goes to device (0x50 + i) << 1, register 0, into the buffer at i * 256, with 256 bytes or, for the last, length % 256 |
| MyriadDecoder.ReadPages | keyboards/splitkb/elora/rev1/myriad.c:51-61 | a successful run of transfers delivers the sum of their lengths |
| MyriadDecoder.PlanPrefixLength | keyboards/splitkb/elora/rev1/myriad.c:51-58 | every page before the last is a full 256 bytes |
| MyriadDecoder.PlanLength | keyboards/splitkb/elora/rev1/myriad.c:48-58 | the transfers of a read add up to exactly the requested length |
| MyriadDecoder.ReadAll | keyboards/splitkb/elora/rev1/myriad.c:42-63 | a successful read delivers exactly the requested number of bytes |
| MyriadDecoder.FailureIsFinal | keyboards/splitkb/elora/rev1/myriad.c:60 | one failed transfer fails the whole read, whatever the later pages would have given |
| MyriadDecoder.ReadPagesStep | keyboards/splitkb/elora/rev1/myriad.c:51-61 | after a failed transfer the read stays failed; after a successful one the next page is appended |
| MyriadDecoder.ReadFromPages | keyboards/splitkb/elora/rev1/myriad.c:51-62 | continuing the page loop from any point with the bytes read so far gives the result of the whole plan |
| MyriadDecoder.MyriadReader | keyboards/splitkb/elora/rev1/myriad.c:42-63 | the loop returns exactly the result of the page plan: the concatenated pages, or failure at the first failed transfer |
| MyriadDecoder.MemoryPage | keyboards/splitkb/elora/rev1/myriad.c:59 | against an EEPROM image, a page transfer to one of its eight blocks returns that page's slice of the image |
| MyriadDecoder.MemoryPlanPage | keyboards/splitkb/elora/rev1/myriad.c:51-59 | against an EEPROM image, the k-th transfer of a read returns the image between the ends of pages k-1 and k |
| MyriadDecoder.MemoryPrefix | keyboards/splitkb/elora/rev1/myriad.c:51-61 | against an EEPROM image, the first k pages of a read return the image's prefix |
| MyriadDecoder.ReadMemory | keyboards/splitkb/elora/rev1/myriad.c:42-63 | against an EEPROM image, a read of n < 2048 bytes returns the image's first n bytes |
| MyriadDecoder.MemoryBus | keyboards/splitkb/elora/rev1/myriad.c:59 | the EEPROM behind the bus: block i of a 2 kB part answers at 7-bit address 0x50 + i for i < 8, a read from register r returns the image from byte i * 256 + r, and any other transfer fails |
| MyriadDecoder.FullReadFails | keyboards/splitkb/elora/rev1/myriad.c:48-60 | a read of all 2048 bytes plans nine transfers, the last one empty and addressed to device 0x58, and fails against an EEPROM image |
| MyriadDecoder.TrimmedPlan | keyboards/splitkb/elora/rev1/myriad.c:48-58 | the page plan without a trailing empty transfer: at most eight transfers, each of at least one byte |
| MyriadDecoder.TrimmedReadMemory | keyboards/splitkb/elora/rev1/myriad.c:48-60 | with the trimmed plan, a read of every length up to 2048 returns the image's prefix |
| MyriadDecoder.VerifyChecksum | keyboards/splitkb/elora/rev1/myriad.c:95-114 | true exactly when the Adler-32 of bytes 12..length of the bytes read equals the stored checksum |
| MyriadDecoder.ChecksumMatches | keyboards/splitkb/elora/rev1/myriad.c:95-114 | the Adler-32 word of bytes 12..length equals the stored checksum |
| MyriadDecoder.ScanStart | keyboards/splitkb/elora/rev1/myriad.c:119-123 | a minimum inside the header is raised to exactly 12; otherwise it is kept |
| MyriadDecoder.LocateEntry | keyboards/splitkb/elora/rev1/myriad.c:118-145 | the loop returns the scan's answer: the payload offset (at least 14, at most maximum + 1), -2 for a tag with the wrong length, -1 when nothing is found |
| MyriadDecoder.IdentityAt | keyboards/splitkb/elora/rev1/myriad.c:147-157 | the identity read_card_identity yields: the scan for tag 1 with length 5 from the header's end to the bytes read, then the five bytes at the payload offset |
| MyriadDecoder.IdentityAtScan | keyboards/splitkb/elora/rev1/myriad.c:147-157 | an identity is read iff the scan from the header's end finds tag 1 with length 5, and its encoding is the five bytes at the payload offset |
| MyriadDecoder.IdentityBytesRoundTrip | keyboards/splitkb/elora/rev1/myriad.c:153-155 | the five copied bytes are exactly the identity's encoding |
| MyriadDecoder.ReadCardIdentity | keyboards/splitkb/elora/rev1/myriad.c:147-157 | the copy loop returns the identity the scan locates, or none |
| MyriadDecoder.BufferCardOnce | keyboards/splitkb/elora/rev1/myriad.c:179-192 | after a successful payload read: invalid on a checksum mismatch or a missing identity, else the identity's card |
| MyriadDecoder.PayloadCardOnce | keyboards/splitkb/elora/rev1/myriad.c:178-192 | a failed payload read is invalid; otherwise the card follows the checksum and identity of the bytes read |
| MyriadDecoder.SpecOfPayload | keyboards/splitkb/elora/rev1/myriad.c:169-178 | once the header is read and accepted, detection depends only on the read of header plus payload |
| MyriadDecoder.DetectOnce | keyboards/splitkb/elora/rev1/myriad.c:159-193 | one detection run: no card if the presence pin is high; otherwise invalid on a failed read, bad header, failed payload read, checksum mismatch or missing identity; else the identity's card |
| MyriadDecoder.DetectSpec | keyboards/splitkb/elora/rev1/myriad.c:159-193 | the reference for one detection run: no card on a high presence pin; otherwise the header read, its acceptance, the full read, the checksum and the identity, each failure giving invalid |
| MyriadDecoder.ReadHeader | keyboards/splitkb/elora/rev1/myriad.c:170-172 | the header as decoded from a 12-byte read, or none when the read fails |
| MyriadDecoder.PayloadCard | keyboards/splitkb/elora/rev1/myriad.c:176-192 | after an accepted header: invalid when the full read fails, else the card of the bytes read |
| MyriadDecoder.BufferCard | keyboards/splitkb/elora/rev1/myriad.c:179-192 | invalid on a checksum mismatch or a missing identity, else the card of the identity found |
| MyriadDecoder.DetectOutcomes | keyboards/splitkb/elora/rev1/myriad.c:159-193 | detection never returns "uninitialised" or the encoder, and returns "no card" exactly when the presence pin is high |
| MyriadDecoder.DetectFailures | keyboards/splitkb/elora/rev1/myriad.c:169-182 | each failed stage of detection yields the invalid card |
| MyriadDecoder.DetectFromMemory | keyboards/splitkb/elora/rev1/myriad.c:169-178 | against an EEPROM image, detection reads the stored header and, for an accepted header, header plus payload when they are shorter than 2048 bytes; a 2048-byte read fails |
| MyriadDecoder.FullPayloadRejected | keyboards/splitkb/elora/rev1/myriad.c:169-178 | an EEPROM whose accepted header announces the largest payload, 2036 bytes, is detected as invalid |
| MyriadDecoder.HeaderFromMemory | keyboards/splitkb/elora/rev1/myriad.c:170-171 | against an EEPROM image, the header read decodes the image's first 12 bytes |
| MyriadDecoder.ChecksumBroken | keyboards/splitkb/elora/rev1/myriad.c:179 | a payload that passes the checksum fails it once any one of its bytes is changed |
| MyriadDecoder.CorruptedPayloadRejected | keyboards/splitkb/elora/rev1/myriad.c:176-179 | a card whose image passes the checksum is rejected as invalid once any one payload byte is changed |
| MyriadDecoder.ExampleChecksum | keyboards/splitkb/elora/rev1/myriad.c:95-114 | the Adler-32 of a concrete ten-byte payload |
| MyriadDecoder.ExampleChecksumMatches | keyboards/splitkb/elora/rev1/myriad.c:95-114 | the concrete header's stored checksum matches the concrete ten-byte payload |
| MyriadDecoder.ExampleScan | keyboards/splitkb/elora/rev1/myriad.c:118-145 | in the concrete image, the scan steps over a one-byte record of type 2 at offset 12 and stops at payload offset 17, behind the identity record's header |
| MyriadDecoder.ExampleRecords | keyboards/splitkb/elora/rev1/myriad.c:147-157 | in the concrete image, the identity read behind the record of type 2 is vendor 1, product 3, revision 7 |
| MyriadDecoder.ExampleHeaderAccepted | keyboards/splitkb/elora/rev1/myriad.c:65-92 | the concrete header is accepted and announces a ten-byte payload |
| MyriadDecoder.ExampleImage | keyboards/splitkb/elora/rev1/myriad.c:169-178 | from the concrete EEPROM image the bus delivers its header, then its 22 bytes of header and payload |
| MyriadDecoder.ExampleSwitches | keyboards/splitkb/elora/rev1/myriad.c:159-193 | a concrete image with identity vendor 1, product 3 is detected as the switches card |
| Platform.Elapsed | keyboards/splitkb/elora/rev1/myriad.c:288 | the 16-bit timer difference: last + elapsed wraps to now; without wrap it is now - last |
| Platform.ElapsedSelf | keyboards/splitkb/elora/rev1/myriad.c:288 | no time has elapsed since a timer read at the same instant |
| Joystick.TruncDiv | keyboards/splitkb/elora/rev1/myriad.c:309-310 | C division of a signed value by a positive divisor: the remainder v - q * d is smaller than the divisor in magnitude and is zero or has the sign of v |
| Joystick.ApplyDeadZone | keyboards/splitkb/elora/rev1/myriad.c:300-307 | values strictly between -10 and 10 become 0; the boundary and beyond pass unchanged |
| Joystick.Clamp127 | keyboards/splitkb/elora/rev1/myriad.c:312-316 | saturation to the signed 8-bit range: below -127 gives -127, above 127 gives 127, and a value already in range is kept |
| Joystick.Axis | keyboards/splitkb/elora/rev1/myriad.c:296-316 | each axis lies in -127..127, is 0 inside the dead zone and keeps its sign |
| Joystick.Sample | keyboards/splitkb/elora/rev1/myriad.c:295-319 | both axes fit the signed 8-bit report range, and each is 0 exactly when its ADC reading is within 15 of the centre 512 |
| Joystick.AxisOfAdc | keyboards/splitkb/elora/rev1/myriad.c:295-316 | for recentred ADC values the clamp never acts: outside the dead zone the axis is the truncated sixteenth, within -32..32 |
| Joystick.DeadZoneSubsumed | keyboards/splitkb/elora/rev1/myriad.c:300-310 | the dead zone is subsumed by the division: the axis is 0 exactly for deflections below 16 |
| Joystick.SampleRange | keyboards/splitkb/elora/rev1/myriad.c:295-319 | for ADC readings 0..1023, x lies in -32..31 and y in -31..32 (y flipped) |
| Joystick.SampleExtremes | keyboards/splitkb/elora/rev1/myriad.c:295-319 | readings (0, 0) give (-32, 32), (1023, 1023) give (31, -31), and the centre gives (0, 0) |
| MyriadCard.DetectStep | keyboards/splitkb/elora/rev1/myriad.c:197-205 | the cached card is never "uninitialised" afterwards; a cached card is returned as is; otherwise detection runs |
| MyriadCard.InitStep | keyboards/splitkb/elora/rev1/myriad.c:228-251 | after init the latch is set and the card is the detect step's result (the cached card, or a fresh detection while none is cached); a second call only re-reads the cache; the first call adds the card's pull-ups and, for the joystick, starts its timer |
| MyriadCard.DetectCached | keyboards/splitkb/elora/rev1/myriad.c:197-205 | once cached, no later hardware state changes the card |
| MyriadCard.InitOnce | keyboards/splitkb/elora/rev1/myriad.c:228-251 | initialisation is idempotent: a second call at any time on any hardware changes nothing |
| MyriadCard.InitFromBoot | keyboards/splitkb/elora/rev1/myriad.c:207-251 | from power-on, init configures exactly the pins of the detected card, never the encoder's set |
| MyriadCard.PullUps | keyboards/splitkb/elora/rev1/myriad.c:207-225 | the lines each card's init routine pulls up: all four GPIO lines for the switches, three (GPIO1-3) for the encoder, GPIO1 alone for the joystick, none for a card without an init routine |
| MyriadCard.EncoderPullUps | keyboards/splitkb/elora/rev1/myriad.c:215-219 | the encoder card's init pulls up exactly GPIO1, GPIO2 and GPIO3 |
| MyriadCard.PullUpsNotEncoder | keyboards/splitkb/elora/rev1/myriad.c:207-218 | no card other than the encoder has the pull-up set GPIO1, GPIO2, GPIO3 |
| MyriadCard.MatrixWord | keyboards/splitkb/elora/rev1/myriad.c:255-265 | for the switches, bits 0-3 are the inverted GPIO3, GPIO2, GPIO4, GPIO1; for the encoder and joystick, bit 4 is the inverted GPIO1 and nothing else |
| MyriadCard.Myriad.constructor | keyboards/splitkb/elora/rev1/myriad.c:198-229 | power-on: card uninitialised, latch clear, no pins configured, timer 0 |
| MyriadCard.Myriad.Detect | keyboards/splitkb/elora/rev1/myriad.c:197-205 | the cache follows the detect step |
| MyriadCard.Myriad.CardInit | keyboards/splitkb/elora/rev1/myriad.c:228-251 | the state follows the init step, including the pull-ups set by each card's init routine |
| MyriadCard.Myriad.HookMatrix | keyboards/splitkb/elora/rev1/myriad.c:253-275 | after init, row 5 alone is overwritten with the card's word, and the result says whether it changed; without a known card the matrix is untouched and the result is false |
| MyriadCard.Myriad.HookEncoder | keyboards/splitkb/elora/rev1/myriad.c:277-283 | for the encoder, pads 6 and 7 become the inverted A and B lines and nothing else changes; otherwise no pad changes |
| MyriadCard.Myriad.GetReport | keyboards/splitkb/elora/rev1/myriad.c:285-322 | a non-joystick card, or less than 10 ms since the last sample, returns the report unchanged; otherwise the timer restarts and x, y become the filtered sample |
| ScrollMode.Abs | keyboards/splitkb/elora/keymaps/vial/keymap.c:457 | the absolute value is v or -v and never negative |
| ScrollMode.Signum | keyboards/splitkb/elora/keymaps/vial/keymap.c:429-431 | -1, 0 or 1 with the argument's sign, and sign times value is the absolute value; the custom keymap's copy is at keyboards/splitkb/elora/keymaps/custom/keymap.c lines 208-210 |
| ScrollMode.Max | keyboards/splitkb/elora/keymaps/vial/keymap.c:433-435 | the larger of the two arguments; the custom keymap's copy is at keyboards/splitkb/elora/keymaps/custom/keymap.c lines 212-214 |
| ScrollMode.Magnitude | keyboards/splitkb/elora/keymaps/vial/keymap.c:457 | the larger absolute axis: at least both absolute values and equal to one of them; zero exactly when the half does not move |
| ScrollMode.Fires | keyboards/splitkb/elora/keymaps/vial/keymap.c:458 | a half pulses when its larger axis deflection times the milliseconds since its last pulse exceeds 640 |
| ScrollMode.ScrollHalf | keyboards/splitkb/elora/keymaps/vial/keymap.c:457-474 | x and y are always cleared; on a pulse v = -sign(y) and h = sign(x), both one step at most and at least one nonzero, and the timer restarts; otherwise v, h and the timer are kept |
| ScrollMode.ZeroMotionNeverFires | keyboards/splitkb/elora/keymaps/vial/keymap.c:457-463 | a half that does not move never pulses and keeps its timer |
| ScrollMode.NoDoublePulse | keyboards/splitkb/elora/keymaps/vial/keymap.c:458-461 | right after a pulse (elapsed 0) no motion can pulse again |
| ScrollMode.Cadence | keyboards/splitkb/elora/keymaps/vial/keymap.c:458 | with deflection m, a pulse is due exactly when more than 640 / m ms have passed |
| ScrollMode.FiresMonotone | keyboards/splitkb/elora/keymaps/vial/keymap.c:457-458 | more deflection or a longer wait never turns a pulse off |
| ScrollMode.MulMonotone | keyboards/splitkb/elora/keymaps/vial/keymap.c:458 | the product of deflection and elapsed time grows with both |
| ScrollMode.CadenceBounds | keyboards/splitkb/elora/keymaps/vial/keymap.c:458 | any motion pulses after 641 ms, full deflection after 6 ms, and never at elapsed 0 |
| ScrollMode.IsMouseRecord | keyboards/splitkb/elora/keymaps/vial/keymap.c:450-452 | the key counted as a mouse key; ScrollState.ProcessRecord's contract shows it is exactly the key the handler consumes |
| ScrollMode.ScrollState.constructor | keyboards/splitkb/elora/keymaps/vial/keymap.c:424-426 | scroll mode off and both timers 0 at start |
| ScrollMode.ScrollState.ProcessRecord | keyboards/splitkb/elora/keymaps/vial/keymap.c:437-448 | the handler consumes exactly the keys that is_mouse_record_user counts as mouse keys; the scroll key sets the mode on press and clears it on release; every other key leaves the mode |
| ScrollMode.ScrollState.TaskCombined | keyboards/splitkb/elora/keymaps/vial/keymap.c:455-477 | outside scroll mode both reports go to the combiner unchanged and the timers stay; in scroll mode each half follows the pulse rule against its own timer only; the custom keymap's copy is at keyboards/splitkb/elora/keymaps/custom/keymap.c lines 282-304 |
| CustomKeymap.ProcessRecord | keyboards/splitkb/elora/keymaps/custom/keymap.c:216-276 | the handler consumes exactly the key counted as a mouse key, the scroll key, which sets the mode as in the Vial keymap; a macro key sends its string on press only and passes on, as does every other key |
| CustomKeymap.IsMouseRecord | keyboards/splitkb/elora/keymaps/custom/keymap.c:278-280 | the key counted as a mouse key; CustomKeymap.ProcessRecord's contract shows it is exactly the key the handler consumes |

## Left out

- The I2C driver, pin setup and reads, ADC reads and the clock are outside the model. The bus is a function from transfers to results, and levels, readings and the current time are parameters. `i2c_init`, `setPinInput(MYRIAD_PRESENT)` and the 100 ms I2C timeout are not modelled.
- The bus is a pure function, so two identical transfers give identical results. Page 0 is read twice (the header read and the full read); a transfer that succeeds once and fails the second time is not modelled. For an empty payload both reads are the same transfer (device 0xA0, register 0, 12 bytes).
- `wait_ms` delays (100 ms before the presence read, 2 ms in the joystick rate limit) are not modelled: the model has no time passing inside a call.
- The `MYRIAD_OVERRIDE_PRESENCE` build option, which skips the presence check, is not modelled. The model is the default build.
- MyriadDecoder.MyriadReader: it returns the bytes read as a sequence instead of writing them into the caller's buffer in place.
- MyriadDecoder.ChecksumMatches and MyriadFormat.ChecksumWord: `(b << 16) | a` is modelled as `b * 65536 + a`. The two agree because a < 65536 (`MyriadFormat.ChecksumWordSplit`).
- Joystick.Axis: the narrowing of the sample into `mouse_xy_report_t` is not modelled, because the clamped values fit every width the report uses.
- ScrollMode.Magnitude: `abs` of the most negative `int8_t` (-128) wraps in C when `mouse_xy_report_t` is 8 bits wide. Report fields are unbounded integers here, so that case is not modelled.
- `myriad_task` and `pointing_device_driver_init` (empty or trivial glue) are not modelled.
- The keymaps' layer tables, the encoder map, the OLED and encoder user hooks and `pointing_device_init_user` (auto-mouse setup) are static configuration or host calls, so they are not modelled.
- CustomKeymap.ProcessRecord: it reports which macro was sent, not the keystrokes of its `SEND_STRING` text.
- `pointing_device_combine_reports` is host code. It is a function parameter of `ScrollMode.ScrollState.TaskCombined`.

## Findings

| source | as written | input that shows it | evidently intended | confidence | as-written member | corrected member |
|---|---|---|---|---|---|---|
| keyboards/splitkb/elora/rev1/myriad.c:48-59 | `num_pages = length / 256 + 1` always adds a final transfer, empty when length is a multiple of 256; for length 2048 it goes to 7-bit device 0x58, which a 2 kB EEPROM does not have | a header with payload length 2036, which verify_header accepts (line 84): data_size is 2048 and the ninth transfer fails, so a correct card is reported invalid | one transfer per 256-byte block actually read, so every accepted payload length can be read | not executed; depends on the part not answering at 0x58 | MyriadDecoder.FullReadFails | MyriadDecoder.TrimmedReadMemory |

The detection model keeps the reader as written, so `MyriadDecoder.FullPayloadRejected` shows the consequence for detection; `MyriadDecoder.TrimmedPlan` is the corrected plan.
