/**
 * The on-card descriptor of a Myriad expansion card, as pure definitions:
 * the 12-byte packed header and its acceptance rule, the Adler-32
 * checksum over the payload (RFC 1950, section 2.2, field ADLER32), the
 * tag-length-value record stream and the identity record, and the table
 * that maps a (vendor, product) pair to a card type.
 */
module MyriadFormat {
  import opened Bytes

  /** Size of the packed header: magic (3), version (3), checksum (4), payload length (2). */
  const HeaderSize: nat := 12
  /** Capacity of the card's EEPROM, which is also the size of the read buffer. */
  const EepromSize: nat := 2048
  /** The one major version this firmware understands. */
  const SupportedMajor: byte := 1
  /** The highest minor version this firmware understands. */
  const SupportedMinor: nat := 0
  /** The magic tag 'M', 'Y', 'R'. */
  const Magic: seq<byte> := [0x4D, 0x59, 0x52]

  // ---------------------------------------------------------------------
  // Header

  datatype Header = Header(
    magic: seq<byte>,
    major: byte,
    minor: byte,
    patch: byte,
    checksum: uint32,
    payloadLength: uint16)

  /** The packed header as it lies in the first 12 bytes of the EEPROM (little-endian target). */
  function DecodeHeader(b: seq<byte>): (h: Header)
    requires |b| == HeaderSize
    ensures |h.magic| == 3
  {
    Header(b[..3], b[3], b[4], b[5], Le32(b[6..10]), Le16(b[10], b[11]))
  }

  /** The 12 bytes that a header with a 3-byte magic occupies. */
  function EncodeHeader(h: Header): (b: seq<byte>)
    requires |h.magic| == 3
    ensures |b| == HeaderSize
  {
    h.magic + [h.major, h.minor, h.patch] + Le32Bytes(h.checksum) + Le16Bytes(h.payloadLength)
  }

  lemma {:induction false} HeaderRoundTrip(h: Header)
    requires |h.magic| == 3
    ensures DecodeHeader(EncodeHeader(h)) == h
  {
    var b := EncodeHeader(h);
    assert b[..3] == h.magic;
    assert b[6..10] == Le32Bytes(h.checksum);
    Le32RoundTrip(h.checksum);
    Le16RoundTrip(h.payloadLength);
  }

  lemma {:induction false} HeaderBytesRoundTrip(b: seq<byte>)
    requires |b| == HeaderSize
    ensures EncodeHeader(DecodeHeader(b)) == b
  {
    Le32BytesRoundTrip(b[6..10]);
    Le16BytesRoundTrip(b[10..]);
    assert b == b[..3] + [b[3], b[4], b[5]] + b[6..10] + b[10..];
  }

  /**
   * The header is accepted when the magic matches, the major version is
   * exactly the supported one, the minor version is not above the
   * supported one, and the payload fits in the EEPROM after the header.
   * The patch version and the checksum play no part.
   */
  function VerifyHeader(h: Header): (ok: bool)
    ensures ok ==> HeaderSize + h.payloadLength <= EepromSize
    ensures ok ==> h.major == 1 && h.minor == 0
  {
    && h.magic == Magic
    && h.major == SupportedMajor
    && !(h.minor > SupportedMinor)
    && !(h.payloadLength > EepromSize - HeaderSize)
  }

  /** Acceptance stated on the raw header bytes. */
  lemma HeaderAcceptance(b: seq<byte>)
    requires |b| == HeaderSize
    ensures VerifyHeader(DecodeHeader(b)) <==>
      && b[0] == 'M' as int && b[1] == 'Y' as int && b[2] == 'R' as int
      && b[3] == 1
      && b[4] == 0
      && b[10] as int + 256 * b[11] as int <= 2036
  {
    assert DecodeHeader(b).magic == Magic <==> b[0] == 0x4D && b[1] == 0x59 && b[2] == 0x52 by {
      if b[0] == 0x4D && b[1] == 0x59 && b[2] == 0x52 {
        assert b[..3] == [b[0], b[1], b[2]];
      }
    }
  }

  /** Bytes 5 to 9 (patch version and checksum) never decide acceptance. */
  lemma {:induction false} HeaderIgnoresPatchAndChecksum(b: seq<byte>, b': seq<byte>)
    requires |b| == |b'| == HeaderSize
    requires b[..5] == b'[..5] && b[10..] == b'[10..]
    ensures VerifyHeader(DecodeHeader(b)) == VerifyHeader(DecodeHeader(b'))
  {
    assert b[..3] == b[..5][..3] && b'[..3] == b'[..5][..3];
    assert b[3] == b[..5][3] && b'[3] == b'[..5][3];
    assert b[4] == b[..5][4] && b'[4] == b'[..5][4];
    assert b[10] == b[10..][0] && b'[10] == b'[10..][0];
    assert b[11] == b[10..][1] && b'[11] == b'[10..][1];
  }

  /** A wrong magic tag rejects the header whatever the other nine bytes hold. */
  lemma BadMagicRejected(h: Header)
    requires h.magic != Magic
    ensures !VerifyHeader(h)
  {
  }

  // ---------------------------------------------------------------------
  // Adler-32 over the payload

  const AdlerMod: nat := 65521

  /** The two running sums of Adler-32. */
  datatype AdlerState = AdlerState(a: nat, b: nat)

  /** One byte of the checksum loop. */
  function AdlerStep(st: AdlerState, x: byte): AdlerState
  {
    var a := (st.a + x) % AdlerMod;
    AdlerState(a, (st.b + a) % AdlerMod)
  }

  /** The sums after folding every byte of `s` in order, starting from a = 1, b = 0. */
  function Adler(s: seq<byte>): (st: AdlerState)
    ensures st.a < AdlerMod && st.b < AdlerMod
    decreases |s|
  {
    if |s| == 0 then AdlerState(1, 0) else AdlerStep(Adler(s[..|s| - 1]), s[|s| - 1])
  }

  /** `(b << 16) | a`: both sums are below 2^16, so the shift and the or never overlap. */
  function ChecksumWord(st: AdlerState): nat
  {
    st.b * 0x1_0000 + st.a
  }

  /** The stored checksum word splits back into the two sums. */
  lemma ChecksumWordSplit(st: AdlerState)
    requires st.a < 0x1_0000
    ensures ChecksumWord(st) % 0x1_0000 == st.a && ChecksumWord(st) / 0x1_0000 == st.b
    ensures ChecksumWord(st) < 0x1_0000_0000 || st.b >= 0x1_0000
  {
  }

  /** The sum of the bytes of `s`. */
  function Sum(s: seq<byte>): nat
    decreases |s|
  {
    if |s| == 0 then 0 else Sum(s[..|s| - 1]) + s[|s| - 1]
  }

  /** The sum of the prefix sums of `s`: (1 + D1) + (1 + D1 + D2) + ... */
  function PrefixSums(s: seq<byte>): nat
    decreases |s|
  {
    if |s| == 0 then 0 else PrefixSums(s[..|s| - 1]) + 1 + Sum(s)
  }

  /** Reducing a partial sum early does not change the result (the modulus is a constant). */
  lemma ModAdd(p: nat, x: nat)
    ensures (p % AdlerMod + x) % AdlerMod == (p + x) % AdlerMod
  {
    var q := p / AdlerMod;
    assert p == q * AdlerMod + p % AdlerMod;
  }

  /** Two numbers closer than the modulus and distinct have distinct residues. */
  lemma ModDistinct(p: nat, q: nat)
    requires p < q < p + AdlerMod
    ensures p % AdlerMod != q % AdlerMod
  {
    assert p == (p / AdlerMod) * AdlerMod + p % AdlerMod;
    assert q == (q / AdlerMod) * AdlerMod + q % AdlerMod;
  }

  /**
   * The loop computes what section 2.2 of RFC 1950 defines: s1 is 1 plus
   * the sum of the bytes, s2 the sum of the successive values of s1, both
   * modulo 65521.
   */
  lemma {:induction false} AdlerIsRfc1950(s: seq<byte>)
    ensures Adler(s).a == (1 + Sum(s)) % AdlerMod
    ensures Adler(s).b == PrefixSums(s) % AdlerMod
  {
    if |s| > 0 {
      var init, x := s[..|s| - 1], s[|s| - 1];
      AdlerIsRfc1950(init);
      ModStep(Adler(init).a, Adler(init).b, Sum(init), PrefixSums(init), x);
    }
  }

  /** One step of the loop keeps both sums equal to their unreduced values modulo 65521. */
  lemma ModStep(sa: nat, sb: nat, sum: nat, prefix: nat, x: nat)
    requires sa == (1 + sum) % AdlerMod && sb == prefix % AdlerMod
    ensures (sa + x) % AdlerMod == (1 + sum + x) % AdlerMod
    ensures (sb + (sa + x) % AdlerMod) % AdlerMod == (prefix + 1 + sum + x) % AdlerMod
  {
    ModAdd(1 + sum, x);
    ModAdd(prefix, (1 + sum + x) % AdlerMod);
    ModAdd(1 + sum + x, prefix);
  }

  lemma {:induction false} SumUpdate(s: seq<byte>, i: nat, v: byte)
    requires i < |s|
    ensures Sum(s[i := v]) + s[i] == Sum(s) + v
    decreases |s|
  {
    var t := s[i := v];
    if i < |s| - 1 {
      assert t[..|t| - 1] == s[..|s| - 1][i := v];
      SumUpdate(s[..|s| - 1], i, v);
    } else {
      assert t[..|t| - 1] == s[..|s| - 1];
    }
  }

  /** Changing one byte moves the sum `a` to a different residue. */
  lemma SumChanges(s: seq<byte>, i: nat, v: byte)
    requires i < |s| && v != s[i]
    ensures Adler(s[i := v]).a != Adler(s).a
  {
    var t := s[i := v];
    AdlerIsRfc1950(s);
    AdlerIsRfc1950(t);
    SumUpdate(s, i, v);
    if v < s[i] {
      ModDistinct(1 + Sum(t), 1 + Sum(s));
    } else {
      ModDistinct(1 + Sum(s), 1 + Sum(t));
    }
  }

  /**
   * Changing any one payload byte changes the checksum: the sum `a` moves
   * by a nonzero amount smaller than the modulus.
   */
  lemma CorruptionDetected(s: seq<byte>, i: nat, v: byte)
    requires i < |s| && v != s[i]
    ensures ChecksumWord(Adler(s[i := v])) != ChecksumWord(Adler(s))
  {
    var t := s[i := v];
    SumChanges(s, i, v);
    ChecksumWordSplit(Adler(s));
    ChecksumWordSplit(Adler(t));
  }

  // ---------------------------------------------------------------------
  // Tag-length-value records

  /** The three outcomes of a record search. */
  datatype Located = Found(payload: nat) | WrongLength | NotFound

  /** The int16 that locate_entry returns for each outcome. */
  function Sentinel(r: Located): int
  {
    match r
    case Found(p) => p
    case WrongLength => -2
    case NotFound => -1
  }

  /**
   * The scan from `offset`: at the first entry whose tag matches, the
   * payload offset if its declared length is `len`, otherwise WrongLength;
   * NotFound once the offset reaches `maximum`. A non-matching entry is
   * skipped by its tag, its length byte and its declared payload. The
   * length byte of the entry at `maximum - 1` lies at `maximum`, so the
   * data must extend at least one byte past `maximum`.
   */
  function Scan(tag: byte, len: byte, data: seq<byte>, offset: nat, maximum: nat): (r: Located)
    requires maximum < |data|
    ensures r.Found? ==> offset + 2 <= r.payload <= maximum + 1
    decreases if offset < maximum then maximum - offset else 0
  {
    if offset >= maximum then NotFound
    else if data[offset] == tag then
      if data[offset + 1] == len then Found(offset + 2) else WrongLength
    else
      Scan(tag, len, data, offset + 2 + data[offset + 1], maximum)
  }

  /**
   * What the scan's answers mean: a hit sits right after a tag byte and a
   * matching length byte; a wrong length was seen on an entry with the tag.
   */
  lemma {:induction false} ScanMeaning(tag: byte, len: byte, data: seq<byte>, offset: nat, maximum: nat)
    requires maximum < |data|
    ensures var r := Scan(tag, len, data, offset, maximum);
      r.Found? ==> data[r.payload - 2] == tag && data[r.payload - 1] == len
    ensures Scan(tag, len, data, offset, maximum).WrongLength? ==>
      exists p :: offset <= p < maximum && data[p] == tag && data[p + 1] != len
    decreases if offset < maximum then maximum - offset else 0
  {
    if offset < maximum {
      if data[offset] == tag {
        assert data[offset + 1] != len ==> offset <= offset < maximum && data[offset] == tag && data[offset + 1] != len;
      } else {
        ScanMeaning(tag, len, data, offset + 2 + data[offset + 1], maximum);
      }
    }
  }

  /** A record payload: its length must fit the one length byte. */
  type Body = s: seq<byte> | |s| < 0x100

  datatype Entry = Entry(tag: byte, body: Body)

  /** Records laid end to end: tag, length, payload, with no padding. */
  function Serialize(es: seq<Entry>): (b: seq<byte>)
  {
    if |es| == 0 then [] else [es[0].tag, |es[0].body|] + es[0].body + Serialize(es[1..])
  }

  /**
   * The reference search over a list of records placed at `at`: the
   * payload offset of the first record with the tag if its length is
   * `len`, WrongLength if the first record with the tag has another
   * length, NotFound if no record has the tag.
   */
  function Lookup(es: seq<Entry>, tag: byte, len: nat, at: nat): Located
  {
    if |es| == 0 then NotFound
    else if es[0].tag == tag then
      if |es[0].body| == len then Found(at + 2) else WrongLength
    else Lookup(es[1..], tag, len, at + 2 + |es[0].body|)
  }

  /** A serialised stream opens with the first record's tag and length, and its tail is the rest. */
  lemma SerializeCons(es: seq<Entry>)
    requires |es| > 0
    ensures var b := Serialize(es); var n := 2 + |es[0].body|;
      && |b| == n + |Serialize(es[1..])|
      && b[0] == es[0].tag && b[1] == |es[0].body|
      && b[2..n] == es[0].body
      && b[n..] == Serialize(es[1..])
  {
    var head := [es[0].tag, |es[0].body|] + es[0].body;
    assert Serialize(es) == head + Serialize(es[1..]);
  }

  /** Indexing into a slice is indexing into the sequence. */
  lemma SliceAt(data: seq<byte>, lo: nat, hi: nat, j: nat)
    requires lo <= hi <= |data| && j <= hi - lo
    ensures data[lo + j..hi] == data[lo..hi][j..]
    ensures j < hi - lo ==> data[lo + j] == data[lo..hi][j]
  {
  }

  lemma SliceOfSlice(data: seq<byte>, lo: nat, hi: nat, a: nat, b: nat)
    requires lo <= hi <= |data| && a <= b <= hi - lo
    ensures data[lo..hi][a..b] == data[lo + a..lo + b]
  {
    var inner := data[lo..hi];
    assert forall k | 0 <= k < b - a :: inner[a..b][k] == data[lo + a + k];
  }

  /**
   * A serialised stream lying in `data` at `offset`: the first record's
   * tag and length are the two bytes there, and the rest of the stream
   * lies right after its payload.
   */
  lemma StreamAt(data: seq<byte>, offset: nat, es: seq<Entry>)
    requires |es| > 0
    requires offset + |Serialize(es)| <= |data|
    requires data[offset..offset + |Serialize(es)|] == Serialize(es)
    ensures data[offset] == es[0].tag && data[offset + 1] == |es[0].body|
    ensures var next := offset + 2 + |es[0].body|;
      && next + |Serialize(es[1..])| == offset + |Serialize(es)|
      && data[offset + 2..next] == es[0].body
      && data[next..next + |Serialize(es[1..])|] == Serialize(es[1..])
  {
    var maximum := offset + |Serialize(es)|;
    SerializeCons(es);
    SliceAt(data, offset, maximum, 0);
    SliceAt(data, offset, maximum, 1);
    SliceAt(data, offset, maximum, 2 + |es[0].body|);
    SliceOfSlice(data, offset, maximum, 2, 2 + |es[0].body|);
  }

  /** A record with another tag is stepped over: tag byte, length byte and payload. */
  lemma ScanSkip(tag: byte, len: byte, data: seq<byte>, offset: nat, maximum: nat)
    requires maximum < |data| && offset < maximum && data[offset] != tag
    ensures Scan(tag, len, data, offset, maximum) == Scan(tag, len, data, offset + 2 + data[offset + 1], maximum)
  {
  }

  /** At a record with the tag, the scan and the reference search stop with the same answer. */
  lemma ScanHit(tag: byte, len: byte, data: seq<byte>, offset: nat, maximum: nat, es: seq<Entry>)
    requires maximum < |data| && offset < maximum
    requires |es| > 0 && es[0].tag == tag && data[offset] == tag && data[offset + 1] == |es[0].body|
    ensures Scan(tag, len, data, offset, maximum) == Lookup(es, tag, len, offset)
  {
  }

  lemma LookupSkip(es: seq<Entry>, tag: byte, len: nat, at: nat)
    requires |es| > 0 && es[0].tag != tag
    ensures Lookup(es, tag, len, at) == Lookup(es[1..], tag, len, at + 2 + |es[0].body|)
  {
  }

  /**
   * The records `es` lie in `data` from `offset` up to exactly `maximum`:
   * each one's tag, length byte and payload, one after the other.
   */
  predicate StreamIn(data: seq<byte>, offset: nat, maximum: nat, es: seq<Entry>)
    decreases |es|
  {
    if |es| == 0 then offset == maximum
    else
      var next := offset + 2 + |es[0].body|;
      && next <= maximum <= |data|
      && data[offset] == es[0].tag && data[offset + 1] == |es[0].body|
      && data[offset + 2..next] == es[0].body
      && StreamIn(data, next, maximum, es[1..])
  }

  /** Serialised records copied into `data` lie there record by record. */
  lemma {:induction false} SerializedStreamIn(data: seq<byte>, offset: nat, es: seq<Entry>)
    requires offset + |Serialize(es)| <= |data|
    requires data[offset..offset + |Serialize(es)|] == Serialize(es)
    ensures StreamIn(data, offset, offset + |Serialize(es)|, es)
    decreases |es|
  {
    if |es| > 0 {
      StreamAt(data, offset, es);
      SerializedStreamIn(data, offset + 2 + |es[0].body|, es[1..]);
    }
  }

  /** The scan over records lying in `data` finds what the reference search finds. */
  lemma {:induction false} ScanMatchesStream(tag: byte, len: byte, data: seq<byte>, offset: nat, maximum: nat, es: seq<Entry>)
    requires maximum < |data| && StreamIn(data, offset, maximum, es)
    ensures Scan(tag, len, data, offset, maximum) == Lookup(es, tag, len, offset)
    decreases |es|
  {
    if |es| > 0 {
      if es[0].tag == tag {
        ScanHit(tag, len, data, offset, maximum, es);
      } else {
        ScanMatchesStream(tag, len, data, offset + 2 + |es[0].body|, maximum, es[1..]);
        ScanSkip(tag, len, data, offset, maximum);
        LookupSkip(es, tag, len, offset);
      }
    }
  }

  /**
   * On a well-formed stream lying at `offset` and ending at the scan
   * limit, the scan finds exactly what the reference search finds.
   */
  lemma ScanMatchesLookup(tag: byte, len: byte, data: seq<byte>, offset: nat, es: seq<Entry>)
    requires offset + |Serialize(es)| < |data|
    requires data[offset..offset + |Serialize(es)|] == Serialize(es)
    ensures Scan(tag, len, data, offset, offset + |Serialize(es)|) == Lookup(es, tag, len, offset)
  {
    SerializedStreamIn(data, offset, es);
    ScanMatchesStream(tag, len, data, offset, offset + |Serialize(es)|, es);
  }

  // ---------------------------------------------------------------------
  // Identity record and card types

  /** Record type and size of the identity record. */
  const IdentityTag: byte := 0x01
  const IdentitySize: byte := 5

  datatype Identity = Identity(vendor: uint16, product: uint16, revision: byte)

  /** The packed identity record: vendor and product little-endian, then the revision. */
  function DecodeIdentity(b: seq<byte>): Identity
    requires |b| == IdentitySize
  {
    Identity(Le16(b[0], b[1]), Le16(b[2], b[3]), b[4])
  }

  function EncodeIdentity(id: Identity): (b: seq<byte>)
    ensures |b| == IdentitySize
  {
    Le16Bytes(id.vendor) + Le16Bytes(id.product) + [id.revision]
  }

  lemma IdentityRoundTrip(id: Identity)
    ensures DecodeIdentity(EncodeIdentity(id)) == id
  {
    Le16RoundTrip(id.vendor);
    Le16RoundTrip(id.product);
  }

  /** What the firmware knows of the card. */
  datatype Card = Uninitialized | NoCard | Invalid | Unknown | Switches | Encoder | Joystick

  /** The static table from (vendor, product) to card type. */
  function CardOf(id: Identity): (c: Card)
    ensures c == Joystick <==> id.vendor == 1 && (id.product == 1 || id.product == 2)
    ensures c == Switches <==> id.vendor == 1 && id.product == 3
    ensures c == Unknown <==> !(id.vendor == 1 && 1 <= id.product <= 3)
    ensures c != Encoder && c != Uninitialized && c != NoCard && c != Invalid
  {
    if id.vendor == 0x0001 && id.product == 0x0001 then Joystick
    else if id.vendor == 0x0001 && id.product == 0x0002 then Joystick
    else if id.vendor == 0x0001 && id.product == 0x0003 then Switches
    else Unknown
  }
}
