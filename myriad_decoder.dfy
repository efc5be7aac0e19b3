/**
 * Card detection: the paged EEPROM reader, the checksum loop, the record
 * scan and the identity copy, each a method proved against the pure
 * definitions of MyriadFormat, and the whole detection sequence.
 */
module MyriadDecoder {
  import opened Wrappers
  import opened Bytes
  import opened MyriadFormat

  /** 7-bit bus address of the first 256-byte page of the EEPROM. */
  const EepromAddress: nat := 0x50
  const PageSize: nat := 256

  /**
   * One register read on the bus: the 8-bit device address (the 7-bit
   * address shifted left by one), the register, the offset in the
   * destination buffer and the number of bytes.
   */
  datatype Transfer = Transfer(device: nat, register: nat, dest: nat, length: nat)

  /** The bus, external to the model: a transfer fails or delivers exactly the bytes asked for. */
  type Bus = f: Transfer -> Option<seq<byte>> | forall t :: f(t).Some? ==> |f(t).value| == t.length
    witness (t: Transfer) => None

  // ---------------------------------------------------------------------
  // Paged reader

  function NumPages(length: nat): nat
  {
    length / PageSize + 1
  }

  /** Page `i` of a read of `length` bytes: full pages, then the remainder (possibly empty). */
  function PageTransfer(i: nat, length: nat): Transfer
  {
    Transfer((EepromAddress + i) * 2, 0, i * PageSize,
             if i == NumPages(length) - 1 then length % PageSize else PageSize)
  }

  /** The transfers of one read: they start at offset 0 and tile the buffer up to `length`. */
  function PagePlan(length: nat): (plan: seq<Transfer>)
    requires length <= EepromSize
    ensures |plan| == NumPages(length) && plan[0].dest == 0
    ensures forall k :: 0 <= k < |plan| ==>
      plan[k].register == 0 && plan[k].length <= PageSize && plan[k].device == (EepromAddress + k) * 2
    ensures forall k :: 0 <= k < |plan| - 1 ==> plan[k + 1].dest == plan[k].dest + plan[k].length
    ensures plan[|plan| - 1].dest + plan[|plan| - 1].length == length
  {
    seq(NumPages(length), (k: int) requires 0 <= k => PageTransfer(k, length))
  }

  /** Sum of the transfer lengths. */
  function TotalLength(plan: seq<Transfer>): nat
  {
    if |plan| == 0 then 0 else TotalLength(plan[..|plan| - 1]) + plan[|plan| - 1].length
  }

  /** The bytes of the transfers in order, or None as soon as one fails. */
  function ReadPages(bus: Bus, plan: seq<Transfer>): (r: Option<seq<byte>>)
    ensures r.Some? ==> |r.value| == TotalLength(plan)
  {
    if |plan| == 0 then Some([])
    else match ReadPages(bus, plan[..|plan| - 1])
      case None => None
      case Some(init) =>
        match bus(plan[|plan| - 1])
        case None => None
        case Some(page) => Some(init + page)
  }

  lemma {:induction false} PlanPrefixLength(length: nat, k: nat)
    requires length <= EepromSize && k < NumPages(length)
    ensures TotalLength(PagePlan(length)[..k]) == k * PageSize
  {
    if k > 0 {
      var plan := PagePlan(length);
      assert plan[..k][..k - 1] == plan[..k - 1];
      PlanPrefixLength(length, k - 1);
    }
  }

  /** A read plan transfers exactly the requested number of bytes. */
  lemma PlanLength(length: nat)
    requires length <= EepromSize
    ensures TotalLength(PagePlan(length)) == length
  {
    var plan := PagePlan(length);
    var n := NumPages(length);
    PlanPrefixLength(length, n - 1);
    assert plan[..n][..n - 1] == plan[..n - 1];
    assert plan[..n] == plan;
  }

  /** One more transfer: the read so far, extended by that transfer's bytes. */
  lemma ReadPagesStep(bus: Bus, plan: seq<Transfer>, k: nat)
    requires k < |plan|
    ensures ReadPages(bus, plan[..k]).None? ==> ReadPages(bus, plan[..k + 1]).None?
    ensures ReadPages(bus, plan[..k]).Some? && bus(plan[k]).None? ==> ReadPages(bus, plan[..k + 1]).None?
    ensures ReadPages(bus, plan[..k]).Some? && bus(plan[k]).Some? ==>
      ReadPages(bus, plan[..k + 1]) == Some(ReadPages(bus, plan[..k]).value + bus(plan[k]).value)
  {
    assert plan[..k + 1][..k] == plan[..k];
  }

  /** A failed transfer fails the whole read, whatever follows it. */
  lemma {:induction false} FailureIsFinal(bus: Bus, plan: seq<Transfer>, k: nat)
    requires k <= |plan| && ReadPages(bus, plan[..k]) == None
    ensures ReadPages(bus, plan) == None
    decreases |plan| - k
  {
    if k < |plan| {
      ReadPagesStep(bus, plan, k);
      FailureIsFinal(bus, plan, k + 1);
    } else {
      assert plan[..k] == plan;
    }
  }

  /**
   * The read as the firmware performs it: transfers from `i` on, appending
   * each page to the bytes `acc` already read, stopping at the first failure.
   */
  function ReadFrom(bus: Bus, plan: seq<Transfer>, i: nat, acc: seq<byte>): Option<seq<byte>>
    decreases |plan| - i
  {
    if i >= |plan| then Some(acc)
    else match bus(plan[i])
      case None => None
      case Some(page) => ReadFrom(bus, plan, i + 1, acc + page)
  }

  /** Continuing a read whose first `i` transfers gave `acc` gives the whole read. */
  lemma {:induction false} ReadFromPages(bus: Bus, plan: seq<Transfer>, i: nat, acc: seq<byte>)
    requires i <= |plan| && ReadPages(bus, plan[..i]) == Some(acc)
    ensures ReadFrom(bus, plan, i, acc) == ReadPages(bus, plan)
    decreases |plan| - i
  {
    if i == |plan| {
      assert plan[..i] == plan;
    } else {
      ReadPagesStep(bus, plan, i);
      match bus(plan[i])
      case None =>
        FailureIsFinal(bus, plan, i + 1);
      case Some(page) =>
        ReadFromPages(bus, plan, i + 1, acc + page);
    }
  }

  /** A read of `length` bytes: the transfers of its plan, in order from the first. */
  function ReadAll(bus: Bus, length: nat): (r: Option<seq<byte>>)
    requires length <= EepromSize
    ensures r.Some? ==> |r.value| == length
  {
    var plan := PagePlan(length);
    assert plan[..0] == [];
    ReadFromPages(bus, plan, 0, []);
    PlanLength(length);
    ReadFrom(bus, plan, 0, [])
  }

  /** myriad_reader: one transfer per page, stopping at the first failure. */
  method MyriadReader(bus: Bus, length: uint16) returns (r: Option<seq<byte>>)
    requires length <= EepromSize
    ensures r == ReadAll(bus, length)
  {
    var numPages := length / 256 + 1;
    var lastPageSize := length % 256;
    ghost var plan := PagePlan(length);
    var data: seq<byte> := [];
    var i := 0;
    while i < numPages
      invariant 0 <= i <= numPages
      invariant ReadFrom(bus, plan, i, data) == ReadAll(bus, length)
    {
      var readLength := if i == numPages - 1 then lastPageSize else 256;
      var s := bus(Transfer((EepromAddress + i) * 2, 0, i * 256, readLength));
      assert Transfer((EepromAddress + i) * 2, 0, i * 256, readLength) == plan[i];
      if s.None? {
        return None;
      }
      data := data + s.value;
      i := i + 1;
    }
    r := Some(data);
  }

  // ---------------------------------------------------------------------
  // A bus backed by the EEPROM's memory

  /** A 2 kB part answers at eight 7-bit addresses, 0x50 to 0x57, one per 256-byte block. */
  const EepromBlocks: nat := EepromSize / PageSize

  /**
   * The EEPROM as a bus: device address (0x50 + i) << 1 for block i < 8,
   * register r reads from byte i * 256 + r; any other address is not answered.
   */
  function MemoryBus(mem: seq<byte>): Bus
  {
    (t: Transfer) =>
      var page := t.device / 2 - EepromAddress;
      var start := page * PageSize + t.register;
      if t.device % 2 == 0 && 0 <= page < EepromBlocks && start + t.length <= |mem|
      then Some(mem[start..start + t.length])
      else None
  }

  lemma MemoryPage(mem: seq<byte>, i: nat, len: nat)
    requires i < EepromBlocks && i * PageSize + len <= |mem|
    ensures MemoryBus(mem)(Transfer((EepromAddress + i) * 2, 0, i * PageSize, len))
         == Some(mem[i * PageSize..i * PageSize + len])
  {
  }

  /** Where the first `k` transfers of a read of `length` bytes end. */
  function PrefixEnd(length: nat, k: nat): nat
  {
    if k == NumPages(length) then length else k * PageSize
  }

  /** Transfer `k - 1` of a read covers the bytes from `(k - 1) * 256` to the prefix end. */
  lemma PageSpan(length: nat, k: nat)
    requires length <= EepromSize && 0 < k <= NumPages(length)
    ensures var t := PagePlan(length)[k - 1];
      && t == Transfer((EepromAddress + (k - 1)) * 2, 0, (k - 1) * PageSize, t.length)
      && (k - 1) * PageSize + t.length == PrefixEnd(length, k)
      && PrefixEnd(length, k - 1) == (k - 1) * PageSize
      && PrefixEnd(length, k) <= length
  {
  }

  /** Transfer `k - 1` of a read, against an EEPROM, returns the image from the end of page `k - 1` to the end of page `k`. */
  lemma MemoryPlanPage(mem: seq<byte>, length: nat, k: nat)
    requires length <= EepromSize && length <= |mem| && 0 < k <= NumPages(length) && k <= EepromBlocks
    ensures PrefixEnd(length, k - 1) <= PrefixEnd(length, k) <= length
    ensures MemoryBus(mem)(PagePlan(length)[k - 1]) == Some(mem[PrefixEnd(length, k - 1)..PrefixEnd(length, k)])
  {
    PageSpan(length, k);
    MemoryPage(mem, k - 1, PagePlan(length)[k - 1].length);
  }

  lemma PrefixConcat(mem: seq<byte>, start: nat, end: nat)
    requires start <= end <= |mem|
    ensures mem[..start] + mem[start..end] == mem[..end]
  {
  }

  lemma {:induction false} MemoryPrefix(mem: seq<byte>, length: nat, k: nat)
    requires length <= EepromSize && length <= |mem| && k <= NumPages(length) && k <= EepromBlocks
    ensures ReadPages(MemoryBus(mem), PagePlan(length)[..k]) == Some(mem[..PrefixEnd(length, k)])
  {
    if k > 0 {
      var plan := PagePlan(length);
      MemoryPrefix(mem, length, k - 1);
      MemoryPlanPage(mem, length, k);
      ReadPagesStep(MemoryBus(mem), plan, k - 1);
      PrefixConcat(mem, PrefixEnd(length, k - 1), PrefixEnd(length, k));
    }
  }

  /**
   * Reading `length` bytes from an EEPROM yields its first `length` bytes,
   * for every length short of the whole part (see FullReadFails for that one).
   */
  lemma ReadMemory(mem: seq<byte>, length: nat)
    requires length < EepromSize && length <= |mem|
    ensures ReadAll(MemoryBus(mem), length) == Some(mem[..length])
  {
    var plan := PagePlan(length);
    MemoryPrefix(mem, length, NumPages(length));
    assert plan[..NumPages(length)] == plan;
    assert plan[..0] == [];
    ReadFromPages(MemoryBus(mem), plan, 0, []);
  }

  /**
   * A read of all 2048 bytes fails on the EEPROM: `length / 256 + 1` gives
   * it a ninth, empty transfer, addressed to 7-bit device 0x58, which a
   * 2 kB part does not answer.
   */
  lemma FullReadFails(mem: seq<byte>)
    ensures |PagePlan(EepromSize)| == 9
    ensures PagePlan(EepromSize)[8] == Transfer(0xB0, 0, EepromSize, 0)
    ensures ReadAll(MemoryBus(mem), EepromSize) == None
  {
    var bus := MemoryBus(mem);
    var plan := PagePlan(EepromSize);
    assert plan[8] == PageTransfer(8, EepromSize);
    assert bus(plan[8]).None?;
    ReadPagesStep(bus, plan, 8);
    assert plan[..9] == plan;
    assert plan[..0] == [];
    ReadFromPages(bus, plan, 0, []);
  }

  /** The page plan without its final transfer when that one is empty: one transfer per block touched. */
  function TrimmedPlan(length: nat): (plan: seq<Transfer>)
    requires length <= EepromSize
    ensures |plan| <= EepromBlocks
    ensures forall k :: 0 <= k < |plan| ==> plan[k].length > 0
  {
    var full := PagePlan(length);
    if length % PageSize == 0 then full[..|full| - 1] else full
  }

  /** With the trimmed plan, every length up to the whole part reads back from the EEPROM. */
  lemma TrimmedReadMemory(mem: seq<byte>, length: nat)
    requires length <= EepromSize && length <= |mem|
    ensures ReadPages(MemoryBus(mem), TrimmedPlan(length)) == Some(mem[..length])
  {
    var full := PagePlan(length);
    var n := NumPages(length);
    if length % PageSize == 0 {
      assert TrimmedPlan(length) == full[..n - 1];
      assert PrefixEnd(length, n - 1) == length;
      MemoryPrefix(mem, length, n - 1);
    } else {
      assert TrimmedPlan(length) == full;
      MemoryPrefix(mem, length, n);
      assert full[..n] == full;
    }
  }

  // ---------------------------------------------------------------------
  // Checksum

  /** The stored checksum matches the payload bytes `data[12..length)`. */
  predicate ChecksumMatches(data: seq<byte>, length: nat, checksum: uint32)
    requires HeaderSize <= length <= |data|
  {
    ChecksumWord(Adler(data[HeaderSize..length])) == checksum
  }

  /** verify_checksum: skips the header and folds the two sums over the rest. */
  method VerifyChecksum(data: seq<byte>, length: uint16, checksum: uint32) returns (ok: bool)
    requires HeaderSize <= length <= |data|
    ensures ok <==> ChecksumMatches(data, length, checksum)
  {
    var payload := length - HeaderSize;
    var a: nat, b: nat := 1, 0;
    for index := 0 to payload
      invariant AdlerState(a, b) == Adler(data[HeaderSize..HeaderSize + index])
    {
      assert data[HeaderSize..HeaderSize + index + 1][..index] == data[HeaderSize..HeaderSize + index];
      a := (a + data[HeaderSize + index]) % AdlerMod;
      b := (b + a) % AdlerMod;
    }
    var calculated := b * 0x1_0000 + a;  // (b << 16) | a, as a < 2^16
    ok := calculated == checksum;
  }

  // ---------------------------------------------------------------------
  // Record scan and identity

  /** The first offset the scan looks at: records start after the header. */
  function ScanStart(minimum: nat): (s: nat)
    ensures minimum < HeaderSize ==> s == HeaderSize
    ensures minimum >= HeaderSize ==> s == minimum
  {
    if minimum < HeaderSize then HeaderSize else minimum
  }

  /**
   * locate_entry. The only caller passes `maximum <= 2048`, which keeps
   * the 16-bit offset from wrapping; the length byte of an entry at
   * `maximum - 1` is read at `maximum`, so `data` reaches past it.
   */
  method LocateEntry(tag: byte, len: byte, data: seq<byte>, minimum: uint16, maximum: uint16) returns (r: int)
    requires maximum <= EepromSize && maximum < |data|
    ensures r == Sentinel(Scan(tag, len, data, ScanStart(minimum), maximum))
    ensures r >= 0 ==> HeaderSize + 2 <= r <= maximum + 1
    ensures r < 0 ==> r == -1 || r == -2
  {
    var start := minimum;
    if start < HeaderSize {
      start := HeaderSize;
    }
    var offset: nat := start;
    while offset < maximum
      invariant start <= offset
      invariant Scan(tag, len, data, start, maximum) == Scan(tag, len, data, offset, maximum)
      decreases maximum - offset
    {
      if data[offset] == tag {
        if data[offset + 1] == len {
          return offset + 2;
        } else {
          return -2;
        }
      } else {
        offset := offset + 2 + data[offset + 1];
      }
    }
    return -1;
  }

  /** The identity record that read_card_identity yields, if the scan finds it. */
  function IdentityAt(data: seq<byte>, length: nat): Option<Identity>
    requires length <= EepromSize && length + 6 <= |data|
  {
    match Scan(IdentityTag, IdentitySize, data, HeaderSize, length)
    case Found(p) => Some(DecodeIdentity(data[p..p + IdentitySize]))
    case _ => None
  }

  /** An identity is read exactly when the scan finds its record, and it is the five bytes behind the record's header. */
  lemma IdentityAtScan(data: seq<byte>, length: nat)
    requires length <= EepromSize && length + 6 <= |data|
    ensures var id := IdentityAt(data, length);
      && (id.Some? <==> Scan(IdentityTag, IdentitySize, data, HeaderSize, length).Found?)
      && (id.Some? ==>
            var p := Scan(IdentityTag, IdentitySize, data, HeaderSize, length).payload;
            EncodeIdentity(id.value) == data[p..p + IdentitySize])
  {
    match Scan(IdentityTag, IdentitySize, data, HeaderSize, length)
    case Found(p) => IdentityBytesRoundTrip(data[p..p + IdentitySize]);
    case _ =>
  }

  lemma IdentityBytesRoundTrip(b: seq<byte>)
    requires |b| == IdentitySize
    ensures EncodeIdentity(DecodeIdentity(b)) == b
  {
    Le16BytesRoundTrip(b[..2]);
    Le16BytesRoundTrip(b[2..4]);
    assert b == b[..2] + b[2..4] + [b[4]];
  }

  /** read_card_identity: locate the identity record, then copy its five bytes. */
  method ReadCardIdentity(data: seq<byte>, length: uint16) returns (id: Option<Identity>)
    requires length <= EepromSize && length + 6 <= |data|
    ensures id == IdentityAt(data, length)
  {
    var result := LocateEntry(IdentityTag, IdentitySize, data, 0, length);
    if result < 0 {
      return None;
    }
    var record: seq<byte> := [];
    for i := 0 to IdentitySize
      invariant record == data[result..result + i]
    {
      record := record + [data[result + i]];
    }
    id := Some(DecodeIdentity(record));
  }

  // ---------------------------------------------------------------------
  // Detection

  /**
   * The bytes that the scan can reach past the bytes read: the length byte
   * at `data_size` and up to five record bytes after it. They lie in the
   * uninitialised part of the 2048-byte stack buffer or, for an image of
   * 2043 bytes or more, partly in memory past that buffer; the model takes
   * them as an input.
   */
  type Tail = s: seq<byte> | |s| == 6 witness [0, 0, 0, 0, 0, 0]

  /** What detection observes: the presence pin, the bus and the stale buffer bytes. */
  datatype Hardware = Hardware(presenceHigh: bool, bus: Bus, stale: Tail)

  /** The header as read from the first page, if the read succeeds. */
  function ReadHeader(bus: Bus): Option<Header>
  {
    match ReadAll(bus, HeaderSize)
    case None => None
    case Some(hb) => Some(DecodeHeader(hb))
  }

  /** Everything after an accepted header: the outcome of the full read, then the checksum and the identity. */
  function PayloadCard(read: Option<seq<byte>>, stale: Tail, checksum: uint32): Card
    requires read.Some? ==> HeaderSize <= |read.value| <= EepromSize
  {
    match read
    case None => Invalid
    case Some(data) => BufferCard(data, stale, checksum)
  }

  /**
   * The card that the bytes read describe: checksum first, then the identity
   * entry, whose scan may run on into the stale bytes behind them.
   */
  function BufferCard(data: seq<byte>, stale: Tail, checksum: uint32): Card
    requires HeaderSize <= |data| <= EepromSize
  {
    if !ChecksumMatches(data, |data|, checksum) then Invalid
    else match IdentityAt(data + stale, |data|)
      case None => Invalid
      case Some(id) => CardOf(id)
  }

  /** _detect_myriad: the result of the one detection attempt. */
  function DetectSpec(hw: Hardware): Card
  {
    if hw.presenceHigh then NoCard
    else match ReadHeader(hw.bus)
      case None => Invalid
      case Some(h) =>
        if !VerifyHeader(h) then Invalid
        else PayloadCard(ReadAll(hw.bus, HeaderSize + h.payloadLength), hw.stale, h.checksum)
  }

  /** The checksum and identity stages of _detect_myriad on the bytes read. */
  method BufferCardOnce(data: seq<byte>, stale: Tail, dataSize: uint16, checksum: uint32) returns (c: Card)
    requires HeaderSize <= dataSize <= EepromSize && |data| == dataSize
    ensures c == BufferCard(data, stale, checksum)
  {
    var buffer := data + stale;
    var ok := VerifyChecksum(data, dataSize, checksum);
    if !ok {
      return Invalid;
    }
    var identity := ReadCardIdentity(buffer, dataSize);
    if identity.None? {
      return Invalid;
    }
    c := CardOf(identity.value);
  }

  /** _detect_myriad once the full read is done: a failed read gives Invalid. */
  method PayloadCardOnce(read: Option<seq<byte>>, stale: Tail, dataSize: uint16, checksum: uint32) returns (c: Card)
    requires HeaderSize <= dataSize <= EepromSize && (read.Some? ==> |read.value| == dataSize)
    ensures c == PayloadCard(read, stale, checksum)
  {
    if read.None? {
      return Invalid;
    }
    c := BufferCardOnce(read.value, stale, dataSize, checksum);
  }

  /** Once the header is read and accepted, detection is decided by the full read. */
  lemma SpecOfPayload(hw: Hardware, h: Header)
    requires !hw.presenceHigh && ReadHeader(hw.bus) == Some(h) && VerifyHeader(h)
    ensures DetectSpec(hw) == PayloadCard(ReadAll(hw.bus, HeaderSize + h.payloadLength), hw.stale, h.checksum)
  {
  }

  /** _detect_myriad as the firmware runs it. */
  method DetectOnce(hw: Hardware) returns (c: Card)
    ensures c == DetectSpec(hw)
  {
    if hw.presenceHigh {
      return NoCard;
    }
    var hb := MyriadReader(hw.bus, HeaderSize);
    if hb.None? {
      return Invalid;
    }
    var header := DecodeHeader(hb.value);
    assert ReadHeader(hw.bus) == Some(header);
    if !VerifyHeader(header) {
      return Invalid;
    }
    var dataSize := HeaderSize + header.payloadLength;
    var data := MyriadReader(hw.bus, dataSize);
    SpecOfPayload(hw, header);
    c := PayloadCardOnce(data, hw.stale, dataSize, header.checksum);
  }

  // ---------------------------------------------------------------------
  // Properties of detection

  /**
   * Detection never leaves the card undetermined and never reports the
   * rotary encoder (no identity maps to it); a high presence pin, and only
   * that, gives "no card".
   */
  lemma DetectOutcomes(hw: Hardware)
    ensures DetectSpec(hw) != Uninitialized && DetectSpec(hw) != Encoder
    ensures DetectSpec(hw) == NoCard <==> hw.presenceHigh
  {
  }

  /** Every failed step short-circuits to Invalid. */
  lemma DetectFailures(hw: Hardware)
    requires !hw.presenceHigh
    ensures ReadHeader(hw.bus).None? ==> DetectSpec(hw) == Invalid
    ensures ReadHeader(hw.bus).Some? && !VerifyHeader(ReadHeader(hw.bus).value) ==> DetectSpec(hw) == Invalid
    ensures ReadHeader(hw.bus).Some? && VerifyHeader(ReadHeader(hw.bus).value) ==>
      var h := ReadHeader(hw.bus).value;
      var size := HeaderSize + h.payloadLength;
      match ReadAll(hw.bus, size)
      case None => DetectSpec(hw) == Invalid
      case Some(data) =>
        && (!ChecksumMatches(data, size, h.checksum) ==> DetectSpec(hw) == Invalid)
        && (IdentityAt(data + hw.stale, size).None? ==> DetectSpec(hw) == Invalid)
  {
  }

  lemma HeaderFromMemory(mem: seq<byte>)
    requires HeaderSize <= |mem|
    ensures ReadHeader(MemoryBus(mem)) == Some(DecodeHeader(mem[..HeaderSize]))
  {
    ReadMemory(mem, HeaderSize);
  }

  /** With an EEPROM behind the bus, detection sees the header and payload stored in it. */
  lemma DetectFromMemory(mem: seq<byte>)
    requires |mem| == EepromSize
    ensures var h := DecodeHeader(mem[..HeaderSize]);
      && ReadHeader(MemoryBus(mem)) == Some(h)
      && (VerifyHeader(h) && HeaderSize + h.payloadLength < EepromSize ==>
            ReadAll(MemoryBus(mem), HeaderSize + h.payloadLength) == Some(mem[..HeaderSize + h.payloadLength]))
      && (VerifyHeader(h) && HeaderSize + h.payloadLength == EepromSize ==>
            ReadAll(MemoryBus(mem), HeaderSize + h.payloadLength) == None)
  {
    var h := DecodeHeader(mem[..HeaderSize]);
    HeaderFromMemory(mem);
    if VerifyHeader(h) {
      var size := HeaderSize + h.payloadLength;
      if size < EepromSize {
        ReadMemory(mem, size);
      } else {
        FullReadFails(mem);
      }
    }
  }

  /** An accepted header announcing the largest payload, 2036 bytes, still leaves the card Invalid. */
  lemma FullPayloadRejected(mem: seq<byte>, stale: Tail)
    requires |mem| == EepromSize
    requires VerifyHeader(DecodeHeader(mem[..HeaderSize]))
    requires DecodeHeader(mem[..HeaderSize]).payloadLength == EepromSize - HeaderSize
    ensures DetectSpec(Hardware(false, MemoryBus(mem), stale)) == Invalid
  {
    DetectFromMemory(mem);
    DetectFailures(Hardware(false, MemoryBus(mem), stale));
  }

  /** One changed payload byte in the bytes read makes the stored checksum fail. */
  lemma ChecksumBroken(mem: seq<byte>, size: nat, checksum: uint32, i: nat, v: byte)
    requires HeaderSize <= i < size <= |mem|
    requires ChecksumMatches(mem, size, checksum) && v != mem[i]
    ensures !ChecksumMatches(mem[i := v][..size], size, checksum)
  {
    var payload := mem[HeaderSize..size];
    assert payload[i - HeaderSize] == mem[i];
    UpdateSlice(mem, HeaderSize, size, i, v);
    CorruptionDetected(payload, i - HeaderSize, v);
  }

  /** Changing one byte of an image changes the same byte of a slice that covers it. */
  lemma UpdateSlice(mem: seq<byte>, lo: nat, hi: nat, i: nat, v: byte)
    requires lo <= i < hi <= |mem|
    ensures mem[i := v][..hi][lo..hi] == mem[lo..hi][i - lo := v]
  {
    var left, right := mem[i := v][..hi][lo..hi], mem[lo..hi][i - lo := v];
    assert forall k | 0 <= k < hi - lo :: left[k] == right[k];
  }

  /**
   * A card whose EEPROM passes the checksum is rejected as Invalid once any
   * single payload byte is changed and the stored checksum is left alone.
   */
  lemma CorruptedPayloadRejected(mem: seq<byte>, stale: Tail, i: nat, v: byte)
    requires |mem| == EepromSize
    requires VerifyHeader(DecodeHeader(mem[..HeaderSize]))
    requires var h := DecodeHeader(mem[..HeaderSize]);
      ChecksumMatches(mem, HeaderSize + h.payloadLength, h.checksum)
    requires HeaderSize <= i < HeaderSize + DecodeHeader(mem[..HeaderSize]).payloadLength
    requires v != mem[i]
    ensures DetectSpec(Hardware(false, MemoryBus(mem[i := v]), stale)) == Invalid
  {
    var mem' := mem[i := v];
    var hw := Hardware(false, MemoryBus(mem'), stale);
    var h := DecodeHeader(mem[..HeaderSize]);
    var size := HeaderSize + h.payloadLength;
    assert mem'[..HeaderSize] == mem[..HeaderSize];
    DetectFromMemory(mem');
    if size < EepromSize {
      assert ReadHeader(hw.bus) == Some(h) && ReadAll(hw.bus, size) == Some(mem'[..size]);
      ChecksumBroken(mem, size, h.checksum, i, v);
    } else {
      assert ReadHeader(hw.bus) == Some(h) && ReadAll(hw.bus, size) == None;
    }
    DetectFailures(hw);
  }

  /** The EEPROM of a switch-array card: header, then a record of another type, then the identity record. */
  const ExamplePayload: seq<byte> := [0x02, 0x01, 0xAA, 0x01, 0x05, 0x01, 0x00, 0x03, 0x00, 0x07]
  const ExampleHeader: seq<byte> := [0x4D, 0x59, 0x52, 1, 0, 3, 0xBF, 0x00, 0xB1, 0x05, 10, 0]

  lemma ExampleChecksum()
    ensures Adler(ExamplePayload) == AdlerState(191, 1457)
  {
    var p := ExamplePayload;
    assert Adler(p[..1]) == AdlerState(3, 3);
    assert p[..2][..1] == p[..1];
    assert Adler(p[..2]) == AdlerState(4, 7);
    assert p[..3][..2] == p[..2];
    assert Adler(p[..3]) == AdlerState(174, 181);
    assert p[..4][..3] == p[..3];
    assert Adler(p[..4]) == AdlerState(175, 356);
    assert p[..5][..4] == p[..4];
    assert Adler(p[..5]) == AdlerState(180, 536);
    assert p[..6][..5] == p[..5];
    assert Adler(p[..6]) == AdlerState(181, 717);
    assert p[..7][..6] == p[..6];
    assert Adler(p[..7]) == AdlerState(181, 898);
    assert p[..8][..7] == p[..7];
    assert Adler(p[..8]) == AdlerState(184, 1082);
    assert p[..9][..8] == p[..8];
    assert Adler(p[..9]) == AdlerState(184, 1266);
    assert p[..9] == p[..|p| - 1];
  }

  /** The example header's stored checksum matches the example payload. */
  lemma ExampleChecksumMatches(data: seq<byte>)
    requires data == ExampleHeader + ExamplePayload
    ensures ChecksumMatches(data, 22, DecodeHeader(ExampleHeader).checksum)
  {
    assert data[HeaderSize..22] == ExamplePayload;
    ExampleChecksum();
  }

  /** In the example, the scan steps over the record of type 2 and stops behind the identity record's header. */
  lemma ExampleScan(data: seq<byte>, stale: Tail)
    requires data == ExampleHeader + ExamplePayload
    ensures Scan(IdentityTag, IdentitySize, data + stale, HeaderSize, 22) == Found(17)
  {
    var buffer := data + stale;
    assert buffer[12] == 2 && buffer[13] == 1;
    ScanSkip(IdentityTag, IdentitySize, buffer, HeaderSize, 22);
    assert buffer[15] == 1 && buffer[16] == 5;
  }

  /** The identity behind the record of type 2 is vendor 1, product 3, revision 7. */
  lemma ExampleRecords(data: seq<byte>, stale: Tail)
    requires data == ExampleHeader + ExamplePayload
    ensures IdentityAt(data + stale, 22) == Some(Identity(1, 3, 7))
  {
    var buffer := data + stale;
    ExampleScan(data, stale);
    assert buffer[17..22] == [1, 0, 3, 0, 7];
  }

  /** The example header is accepted and announces 10 payload bytes. */
  lemma ExampleHeaderAccepted()
    ensures VerifyHeader(DecodeHeader(ExampleHeader))
    ensures DecodeHeader(ExampleHeader).payloadLength == 10
  {
  }

  /** What the bus delivers from the example EEPROM: its header, then the 22 bytes of header and payload. */
  lemma ExampleImage(rest: seq<byte>)
    requires |rest| == EepromSize - 22
    ensures var mem := ExampleHeader + ExamplePayload + rest;
      && ReadHeader(MemoryBus(mem)) == Some(DecodeHeader(ExampleHeader))
      && ReadAll(MemoryBus(mem), 22) == Some(ExampleHeader + ExamplePayload)
  {
    var mem := ExampleHeader + ExamplePayload + rest;
    assert mem[..HeaderSize] == ExampleHeader;
    assert mem[..22] == ExampleHeader + ExamplePayload;
    HeaderFromMemory(mem);
    ReadMemory(mem, 22);
  }

  /** The example resolves to the switch array: vendor 1, product 3. */
  lemma ExampleSwitches(rest: seq<byte>, stale: Tail)
    requires |rest| == EepromSize - 22
    ensures DetectSpec(Hardware(false, MemoryBus(ExampleHeader + ExamplePayload + rest), stale)) == Switches
  {
    var hw := Hardware(false, MemoryBus(ExampleHeader + ExamplePayload + rest), stale);
    var h := DecodeHeader(ExampleHeader);
    var data := ExampleHeader + ExamplePayload;
    ExampleImage(rest);
    ExampleHeaderAccepted();
    ExampleChecksumMatches(data);
    ExampleRecords(data, stale);
    assert CardOf(Identity(1, 3, 7)) == Switches;
    assert BufferCard(data, stale, h.checksum) == Switches;
    SpecOfPayload(hw, h);
  }

}
