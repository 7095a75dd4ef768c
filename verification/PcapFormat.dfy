/** The classic pcap file format as netbox reads it: header acceptance, record framing, time stamps and merge keys. */
module PcapFormat {
  import opened Bytes

  const MAX_SNAP_LEN: nat := 65535
  const TCPDUMP_MAGIC: u32 := 0xa1b2c3d4
  const NSEC_TCPDUMP_MAGIC: u32 := 0xa1b23c4d
  const ETHERNET: u32 := 1

  /** sizeof(FileHeader) and sizeof(PacketHeader). */
  const FILE_HEADER_SIZE: nat := 24
  const PACKET_HEADER_SIZE: nat := 16

  datatype Scale = Up | PassThrough

  datatype Format = Rejected | Accepted(scale: Scale, snaplen: nat)

  /** One captured packet: `nsec` is the fraction after scaling, `len` the length on the wire. */
  datatype Record = Record(sec: u32, nsec: u32, len: u32, data: seq<byte>)

  // ----- reading -----

  /** Which headers readFileHeader accepts, and with which scale and buffer size. */
  function ParseHeader(b: seq<byte>): (f: Format)
    requires |b| == FILE_HEADER_SIZE
  {
    var magic, snaplen, linktype := U32At(b, 0), U32At(b, 16), U32At(b, 20);
    if magic != TCPDUMP_MAGIC && magic != NSEC_TCPDUMP_MAGIC then Rejected
    else if snaplen > MAX_SNAP_LEN then Rejected
    else if linktype != ETHERNET then Rejected
    else Accepted(if magic == TCPDUMP_MAGIC then Up else PassThrough, snaplen)
  }

  /** The number stored little-endian in four bytes from `at` on, written out. */
  function Digits(b: seq<byte>, at: nat): nat
    requires at + 4 <= |b|
  {
    b[at] as int + 256 * b[at + 1] as int + 65536 * b[at + 2] as int + 16777216 * b[at + 3] as int
  }

  lemma DigitsAre(b: seq<byte>, at: nat)
    requires at + 4 <= |b|
    ensures U32At(b, at) == Digits(b, at)
  {
    hide LeValue;
    FourDigits(b[at..at + 4]);
  }

  /** Main result: which bytes are an acceptable header, and what it says. Captures start with d4 c3 b2 a1 for
      microseconds or 4d 3c b2 a1 for nanoseconds, have a snap length up to 65535, and are of link type 1, Ethernet. */
  lemma HeaderBytes(b: seq<byte>)
    requires |b| == 24
    ensures var known := b[..4] == [0xd4, 0xc3, 0xb2, 0xa1] || b[..4] == [0x4d, 0x3c, 0xb2, 0xa1];
      ParseHeader(b).Accepted? <==> known && Digits(b, 16) <= 65535 && b[20..24] == [1, 0, 0, 0]
    ensures ParseHeader(b).Accepted? ==> ParseHeader(b).snaplen == Digits(b, 16)
    ensures ParseHeader(b).Accepted? ==> (ParseHeader(b).scale == Up <==> b[..4] == [0xd4, 0xc3, 0xb2, 0xa1])
    ensures ParseHeader(b).Accepted? ==> (ParseHeader(b).scale == PassThrough <==> b[..4] == [0x4d, 0x3c, 0xb2, 0xa1])
  {
    hide U32At, LeValue;
    DigitsAre(b, 0);
    DigitsAre(b, 16);
    DigitsAre(b, 20);
    assert b[..4] == [b[0], b[1], b[2], b[3]] && b[20..24] == [b[20], b[21], b[22], b[23]];
  }

  /** `header.ts_usec *= 1000` on a 32-bit field. */
  function ScaleFraction(scale: Scale, frac: u32): u32 {
    if scale.Up? then frac * 1000 % 0x1_0000_0000 else frac
  }

  /** What one readPacket finds at the front of the remaining bytes. */
  datatype Outcome =
    | HeaderCut
    | Oversize(rest: seq<byte>)
    | DataCut
    | Got(record: Record, rest: seq<byte>)

  function ReadOne(scale: Scale, snaplen: nat, b: seq<byte>): (o: Outcome)
    ensures o.Got? ==> |o.record.data| <= snaplen && |o.rest| + PACKET_HEADER_SIZE + |o.record.data| == |b|
    ensures o.Oversize? ==> |o.rest| + PACKET_HEADER_SIZE == |b|
  {
    if |b| < PACKET_HEADER_SIZE then HeaderCut
    else
      var caplen := U32At(b, 8);
      var end := PACKET_HEADER_SIZE + caplen;
      if caplen > snaplen then Oversize(b[PACKET_HEADER_SIZE..])
      else if |b| < end then DataCut
      else
        var nsec := ScaleFraction(scale, U32At(b, 4));
        Got(Record(U32At(b, 0), nsec, U32At(b, 12), b[PACKET_HEADER_SIZE..end]), b[end..])
  }

  /** Main result: what readPacket makes of any bytes: which of them are a record's fields and data, when the record is
      whole, and how the fraction wraps when microseconds are scaled. */
  lemma RecordBytes(scale: Scale, snaplen: nat, b: seq<byte>)
    ensures ReadOne(scale, snaplen, b) == HeaderCut <==> |b| < 16
    ensures |b| >= 16 ==> (ReadOne(scale, snaplen, b).Oversize? <==> Digits(b, 8) > snaplen)
    ensures |b| >= 16 ==> (ReadOne(scale, snaplen, b).Got? <==> Digits(b, 8) <= snaplen && 16 + Digits(b, 8) <= |b|)
    ensures ReadOne(scale, snaplen, b).Oversize? ==> ReadOne(scale, snaplen, b).rest == b[16..]
    ensures ReadOne(scale, snaplen, b).Got? ==>
              var r, end := ReadOne(scale, snaplen, b).record, 16 + Digits(b, 8);
              && r.sec == Digits(b, 0) && r.len == Digits(b, 12) && r.data == b[16..end]
              && r.nsec == (if scale == Up then Digits(b, 4) * 1000 % 4294967296 else Digits(b, 4))
              && ReadOne(scale, snaplen, b).rest == b[end..]
  {
    hide U32At, Digits;
    if |b| >= 16 {
      DigitsAre(b, 0);
      DigitsAre(b, 4);
      DigitsAre(b, 8);
      DigitsAre(b, 12);
    }
  }

  /** The packets read before the first empty one. With an empty buffer every packet looks empty, because
      its data pointer is null. */
  function Packets(scale: Scale, snaplen: nat, b: seq<byte>): seq<Record>
    decreases |b|
  {
    if snaplen == 0 then []
    else
      match ReadOne(scale, snaplen, b)
      case Got(record, rest) => [record] + Packets(scale, snaplen, rest)
      case _ => []
  }

  /** The packets behind a header of the given format. */
  function BodyPackets(f: Format, body: seq<byte>): seq<Record> {
    match f
    case Rejected => []
    case Accepted(scale, snaplen) => Packets(scale, snaplen, body)
  }

  /** The packets a whole file contributes to a merge. */
  function FilePackets(b: seq<byte>): seq<Record> {
    if |b| < FILE_HEADER_SIZE then []
    else BodyPackets(ParseHeader(b[..FILE_HEADER_SIZE]), b[FILE_HEADER_SIZE..])
  }

  // ----- framing: the offsets at which packets lie -----

  /** Bytes taken by a list of records. */
  function Span(records: seq<Record>): nat {
    if records == [] then 0 else Span(records[..|records| - 1]) + PACKET_HEADER_SIZE + |records[|records| - 1].data|
  }

  lemma PacketsStep(scale: Scale, snaplen: nat, b: seq<byte>)
    requires snaplen > 0
    ensures var o, ps := ReadOne(scale, snaplen, b), Packets(scale, snaplen, b);
      if o.Got?
      then ps == [o.record] + Packets(scale, snaplen, o.rest) && o.rest == b[PACKET_HEADER_SIZE + |o.record.data|..]
      else ps == []
  {
    hide U32At, ScaleFraction;
  }

  /** After k packets the reader stands 16 + caplen bytes per packet further on, and finds packet k exactly there;
      after the last one it finds no packet. */
  lemma {:induction false} Framing(scale: Scale, snaplen: nat, b: seq<byte>, k: nat)
    requires k <= |Packets(scale, snaplen, b)| && snaplen > 0
    ensures var ps := Packets(scale, snaplen, b);
      && Span(ps[..k]) <= |b|
      && Packets(scale, snaplen, b[Span(ps[..k])..]) == ps[k..]
      && (k < |ps| <==> ReadOne(scale, snaplen, b[Span(ps[..k])..]).Got?)
      && (k < |ps| ==> ReadOne(scale, snaplen, b[Span(ps[..k])..]).record == ps[k])
  {
    hide ReadOne;
    var ps := Packets(scale, snaplen, b);
    if k == 0 {
      assert b[0..] == b;
      PacketsStep(scale, snaplen, b);
    } else {
      Framing(scale, snaplen, b, k - 1);
      assert ps[..k][..k - 1] == ps[..k - 1];
      var here := b[Span(ps[..k - 1])..];
      PacketsStep(scale, snaplen, here);
      assert ps[k - 1..][1..] == ps[k..];
      assert ReadOne(scale, snaplen, here).rest == b[Span(ps[..k])..];
      PacketsStep(scale, snaplen, b[Span(ps[..k])..]);
    }
  }

  // ----- truncation -----

  /** What can be read from a cut stream is also read from the whole one. */
  lemma ReadOneOfCut(scale: Scale, snaplen: nat, b: seq<byte>, cut: nat)
    requires cut <= |b| && ReadOne(scale, snaplen, b[..cut]).Got?
    ensures var o, o' := ReadOne(scale, snaplen, b), ReadOne(scale, snaplen, b[..cut]);
      && o.Got? && o.record == o'.record
      && PACKET_HEADER_SIZE + |o.record.data| <= cut
      && o'.rest == o.rest[..cut - PACKET_HEADER_SIZE - |o.record.data|]
  {
    CutSlice(b, cut, 0, 4);
    CutSlice(b, cut, 4, 8);
    CutSlice(b, cut, 8, 12);
    CutSlice(b, cut, 12, PACKET_HEADER_SIZE);
    assert U32At(b[..cut], 8) == U32At(b, 8);
    CutSlice(b, cut, PACKET_HEADER_SIZE, PACKET_HEADER_SIZE + U32At(b, 8));
  }

  ghost predicate Extends<T>(shorter: seq<T>, longer: seq<T>) {
    shorter <= longer
  }

  lemma ExtendsCons<T>(x: T, a: seq<T>, b: seq<T>)
    requires Extends(a, b)
    ensures Extends([x] + a, [x] + b)
  {
  }

  /** Cutting the remaining bytes anywhere can only drop packets from the end. */
  lemma {:induction false} TruncatedRecords(scale: Scale, snaplen: nat, b: seq<byte>, cut: nat)
    requires cut <= |b|
    ensures Extends(Packets(scale, snaplen, b[..cut]), Packets(scale, snaplen, b))
    decreases |b|
  {
    hide ReadOne;
    var o, o' := ReadOne(scale, snaplen, b), ReadOne(scale, snaplen, b[..cut]);
    if snaplen > 0 && o'.Got? {
      ReadOneOfCut(scale, snaplen, b, cut);
      TruncatedRecords(scale, snaplen, o.rest, cut - PACKET_HEADER_SIZE - |o.record.data|);
      ExtendsCons(o.record, Packets(scale, snaplen, o'.rest), Packets(scale, snaplen, o.rest));
    }
  }

  lemma TruncatedBody(f: Format, body: seq<byte>, cut: nat)
    requires cut <= |body|
    ensures Extends(BodyPackets(f, body[..cut]), BodyPackets(f, body))
  {
    if f.Accepted? {
      TruncatedRecords(f.scale, f.snaplen, body, cut);
    }
  }

  /** Cutting a file at any byte leaves a prefix of its packets, whatever the bytes are. */
  lemma Truncation(b: seq<byte>, cut: nat)
    requires cut <= |b|
    ensures FilePackets(b[..cut]) <= FilePackets(b)
  {
    if cut >= FILE_HEADER_SIZE {
      CutSlice(b, cut, 0, FILE_HEADER_SIZE);
      TruncatedBody(ParseHeader(b[..FILE_HEADER_SIZE]), b[FILE_HEADER_SIZE..], cut - FILE_HEADER_SIZE);
    }
  }

  // ----- writing, and the round trip -----

  /** The fields of the file header; the reader ignores versions, zone and significant figures. */
  datatype FileHeader = FileHeader(magic: u32, major: u16, minor: u16, thiszone: u32, sigfigs: u32,
                                   snaplen: u32, linktype: u32)

  /** A record as a capture program writes it: `frac` counts micro- or nanoseconds, depending on the magic. */
  datatype RawRecord = RawRecord(sec: u32, frac: u32, len: u32, data: seq<byte>)

  function EncodeHeader(h: FileHeader): (b: seq<byte>)
    ensures |b| == FILE_HEADER_SIZE
  {
    Le32(h.magic) + Le16(h.major) + Le16(h.minor) + Le32(h.thiszone) + Le32(h.sigfigs) + Le32(h.snaplen)
    + Le32(h.linktype)
  }

  function EncodeRecord(r: RawRecord): seq<byte>
    requires |r.data| < 0x1_0000_0000
  {
    Le32(r.sec) + Le32(r.frac) + Le32(|r.data|) + Le32(r.len) + r.data
  }

  ghost predicate Writable(records: seq<RawRecord>) {
    forall r <- records :: |r.data| < 0x1_0000_0000
  }

  function EncodeRecords(records: seq<RawRecord>): seq<byte>
    requires Writable(records)
  {
    if records == [] then [] else EncodeRecord(records[0]) + EncodeRecords(records[1..])
  }

  function EncodeFile(h: FileHeader, records: seq<RawRecord>): seq<byte>
    requires Writable(records)
  {
    EncodeHeader(h) + EncodeRecords(records)
  }

  /** The headers the format documents as readable: either magic, Ethernet frames, a snap length in bounds. */
  predicate Supported(h: FileHeader) {
    (h.magic == TCPDUMP_MAGIC || h.magic == NSEC_TCPDUMP_MAGIC) && h.snaplen <= MAX_SNAP_LEN && h.linktype == ETHERNET
  }

  function ScaleOf(h: FileHeader): Scale {
    if h.magic == TCPDUMP_MAGIC then Up else PassThrough
  }

  function Stamp(scale: Scale, r: RawRecord): Record {
    Record(r.sec, ScaleFraction(scale, r.frac), r.len, r.data)
  }

  /** The written records up to the first that does not fit the buffer, with nanosecond stamps. */
  function Readable(scale: Scale, snaplen: nat, records: seq<RawRecord>): seq<Record> {
    if records == [] || |records[0].data| > snaplen then []
    else [Stamp(scale, records[0])] + Readable(scale, snaplen, records[1..])
  }

  lemma HeaderRoundTrip(h: FileHeader)
    ensures ParseHeader(EncodeHeader(h)) == if Supported(h) then Accepted(ScaleOf(h), h.snaplen) else Rejected
  {
    var b := EncodeHeader(h);
    Le32RoundTrip(h.magic, b, 0);
    Le32RoundTrip(h.snaplen, b, 16);
    Le32RoundTrip(h.linktype, b, 20);
  }

  lemma RecordRoundTrip(scale: Scale, snaplen: nat, r: RawRecord, tail: seq<byte>)
    requires |r.data| < 0x1_0000_0000
    ensures ReadOne(scale, snaplen, EncodeRecord(r) + tail) ==
            if |r.data| > snaplen then Oversize(r.data + tail) else Got(Stamp(scale, r), tail)
  {
    hide U32At, ScaleFraction, EncodeRecord;
    HeadRoundTrip(r, tail);
    BodyRoundTrip(r, tail);
  }

  lemma HeadRoundTrip(r: RawRecord, tail: seq<byte>)
    requires |r.data| < 0x1_0000_0000
    ensures var b := EncodeRecord(r) + tail;
      && |b| == PACKET_HEADER_SIZE + |r.data| + |tail|
      && U32At(b, 0) == r.sec && U32At(b, 4) == r.frac && U32At(b, 8) == |r.data| && U32At(b, 12) == r.len
  {
    hide U32At, LeValue;
    var b := EncodeRecord(r) + tail;
    Le32RoundTrip(r.sec, b, 0);
    Le32RoundTrip(r.frac, b, 4);
    Le32RoundTrip(|r.data|, b, 8);
    Le32RoundTrip(r.len, b, 12);
  }

  lemma BodyRoundTrip(r: RawRecord, tail: seq<byte>)
    requires |r.data| < 0x1_0000_0000
    ensures var b := EncodeRecord(r) + tail;
      && |b| == PACKET_HEADER_SIZE + |r.data| + |tail|
      && b[PACKET_HEADER_SIZE..] == r.data + tail
      && b[PACKET_HEADER_SIZE..PACKET_HEADER_SIZE + |r.data|] == r.data
      && b[PACKET_HEADER_SIZE + |r.data|..] == tail
  {
    var head := Le32(r.sec) + Le32(r.frac) + Le32(|r.data|) + Le32(r.len);
    assert EncodeRecord(r) + tail == head + (r.data + tail);
  }

  /** A written record reads back with its fraction unchanged, or multiplied by 1000 modulo 2^32. */
  lemma FractionRoundTrip(scale: Scale, snaplen: nat, r: RawRecord, tail: seq<byte>)
    requires |r.data| < 0x1_0000_0000 && |r.data| <= snaplen
    ensures ReadOne(scale, snaplen, EncodeRecord(r) + tail).Got?
    ensures ReadOne(scale, snaplen, EncodeRecord(r) + tail).record.nsec ==
            if scale == Up then r.frac * 1000 % 4294967296 else r.frac
  {
    hide ReadOne, EncodeRecord;
    RecordRoundTrip(scale, snaplen, r, tail);
  }

  lemma {:induction false} RecordsRoundTrip(scale: Scale, snaplen: nat, records: seq<RawRecord>)
    requires Writable(records) && snaplen > 0
    ensures Packets(scale, snaplen, EncodeRecords(records)) == Readable(scale, snaplen, records)
  {
    if records == [] {
    } else {
      RecordRoundTrip(scale, snaplen, records[0], EncodeRecords(records[1..]));
      RecordsRoundTrip(scale, snaplen, records[1..]);
    }
  }

  /** Reading back a written file yields its records up to the first that does not fit, or nothing when the
      header is not supported or the snap length is zero. */
  lemma FileRoundTrip(h: FileHeader, records: seq<RawRecord>)
    requires Writable(records)
    ensures FilePackets(EncodeFile(h, records)) ==
            if Supported(h) && h.snaplen > 0 then Readable(ScaleOf(h), h.snaplen, records) else []
  {
    HeaderRoundTrip(h);
    var b := EncodeFile(h, records);
    assert b[..FILE_HEADER_SIZE] == EncodeHeader(h) && b[FILE_HEADER_SIZE..] == EncodeRecords(records);
    if Supported(h) && h.snaplen > 0 {
      RecordsRoundTrip(ScaleOf(h), h.snaplen, records);
    }
  }

  /** In any file with a supported header, packet k lies 24 bytes and 16 + caplen bytes per earlier packet into the
      file, and no packet follows the last one. */
  lemma FileFraming(h: FileHeader, body: seq<byte>, k: nat)
    requires Supported(h) && h.snaplen > 0 && k <= |FilePackets(EncodeHeader(h) + body)|
    ensures var b, ps := EncodeHeader(h) + body, FilePackets(EncodeHeader(h) + body);
      var at := 24 + Span(ps[..k]);
      && at <= |b|
      && (k < |ps| <==> ReadOne(ScaleOf(h), h.snaplen, b[at..]).Got?)
      && (k < |ps| ==> ReadOne(ScaleOf(h), h.snaplen, b[at..]).record == ps[k])
  {
    hide ReadOne, Packets, EncodeHeader, ScaleOf, Span, ParseHeader;
    HeaderRoundTrip(h);
    var b := EncodeHeader(h) + body;
    assert b[..FILE_HEADER_SIZE] == EncodeHeader(h) && b[FILE_HEADER_SIZE..] == body;
    Framing(ScaleOf(h), h.snaplen, body, k);
    var at := Span(Packets(ScaleOf(h), h.snaplen, body)[..k]);
    assert b[24 + at..] == body[at..];
  }

  /** Nothing is lost exactly when the header is supported, the snap length is positive and every record fits. */
  lemma NothingLostIff(h: FileHeader, records: seq<RawRecord>)
    requires Writable(records)
    ensures |FilePackets(EncodeFile(h, records))| == |records| <==>
            records == [] || (Supported(h) && h.snaplen > 0 && forall r <- records :: |r.data| <= h.snaplen)
  {
    hide FilePackets;
    FileRoundTrip(h, records);
    ReadableAll(ScaleOf(h), h.snaplen, records);
  }

  lemma {:induction false} ReadableAll(scale: Scale, snaplen: nat, records: seq<RawRecord>)
    ensures |Readable(scale, snaplen, records)| <= |records|
    ensures |Readable(scale, snaplen, records)| == |records| <==> forall r <- records :: |r.data| <= snaplen
    ensures forall i :: 0 <= i < |Readable(scale, snaplen, records)| ==>
              Readable(scale, snaplen, records)[i] == Stamp(scale, records[i])
  {
    if records == [] {
    } else {
      ReadableAll(scale, snaplen, records[1..]);
      assert records == [records[0]] + records[1..];
    }
  }

  // ----- merge keys and time -----

  /** makeUnixTimeNs in 64-bit unsigned arithmetic. */
  function Key(r: Record): nat {
    (r.sec * 1_000_000_000 + r.nsec) % 0x1_0000_0000_0000_0000
  }

  /** The moment a raw record names, in seconds. */
  function Seconds(scale: Scale, r: RawRecord): real {
    r.sec as real + r.frac as real / (if scale.Up? then 1_000_000.0 else 1_000_000_000.0)
  }

  lemma KeyNeverOverflows(r: Record)
    ensures Key(r) == r.sec * 1_000_000_000 + r.nsec
  {
  }

  /** The lexicographic order of (sec, nsec). */
  predicate StampBefore(a: Record, b: Record) {
    a.sec < b.sec || (a.sec == b.sec && a.nsec < b.nsec)
  }

  /** Keys compare a and b, in both directions, as their stamps do. */
  predicate KeysAgree(a: Record, b: Record) {
    && (Key(a) < Key(b) <==> StampBefore(a, b))
    && (Key(b) < Key(a) <==> StampBefore(b, a))
  }

  /** For in-range fractions, key order is the lexicographic order of (sec, nsec), and equal keys are equal stamps. */
  lemma KeyOrder(a: Record, b: Record)
    requires a.nsec < 1_000_000_000 && b.nsec < 1_000_000_000
    ensures KeysAgree(a, b)
    ensures Key(a) == Key(b) <==> a.sec == b.sec && a.nsec == b.nsec
  {
    KeyNeverOverflows(a);
    KeyNeverOverflows(b);
  }

  /** Keys compare a record correctly with every well-formed one exactly when its fraction is in range, or its second is
      the last one there is, so that no later stamp can be overtaken. */
  lemma KeyOrderIff(a: Record)
    ensures (forall b: Record :: b.nsec < 1_000_000_000 ==> KeysAgree(a, b)) <==>
            a.nsec < 1_000_000_000 || a.sec == 0xffff_ffff
  {
    hide Key;
    KeyNeverOverflows(a);
    forall b: Record | b.nsec < 1_000_000_000 && (a.nsec < 1_000_000_000 || a.sec == 0xffff_ffff)
      ensures KeysAgree(a, b)
    {
      KeyNeverOverflows(b);
    }
    if a.nsec >= 1_000_000_000 && a.sec < 0xffff_ffff {
      var b := Record(a.sec + 1, 0, 0, []);
      KeyNeverOverflows(b);
      assert !KeysAgree(a, b);
    }
  }

  /** Out of range: one second's worth of nanoseconds in the fraction ties with the next second. */
  lemma KeyOrderNeedsRange()
    ensures exists a: Record, b: Record :: a.sec < b.sec && a.nsec == 1_000_000_000 && b.nsec == 0 && Key(a) == Key(b)
  {
    var a, b := Record(0, 1_000_000_000, 0, []), Record(1, 0, 0, []);
    assert Key(a) == Key(b);
  }

  /** Scaling the fraction to nanoseconds stays below 2^32. */
  predicate ScalesExactly(scale: Scale, r: RawRecord) {
    scale.PassThrough? || r.frac <= 4_294_967
  }

  /** A key is the record's true time in nanoseconds exactly when scaling did not wrap. */
  lemma KeyIsTrueTimeIff(scale: Scale, r: RawRecord)
    ensures Key(Stamp(scale, r)) as real == Seconds(scale, r) * 1_000_000_000.0 <==> ScalesExactly(scale, r)
  {
    KeyNeverOverflows(Stamp(scale, r));
    if scale.Up? {
      assert Seconds(scale, r) * 1_000_000_000.0 == (r.sec * 1_000_000_000 + r.frac * 1000) as real;
    } else {
      assert Seconds(scale, r) * 1_000_000_000.0 == (r.sec * 1_000_000_000 + r.frac) as real;
    }
  }

  /** Records of microsecond and nanosecond files compare by key as they do by time, unless scaling wraps. */
  lemma MixedFilesCompareByTime(sa: Scale, a: RawRecord, sb: Scale, b: RawRecord)
    requires ScalesExactly(sa, a) && ScalesExactly(sb, b)
    ensures Key(Stamp(sa, a)) < Key(Stamp(sb, b)) <==> Seconds(sa, a) < Seconds(sb, b)
  {
    KeyIsTrueTimeIff(sa, a);
    KeyIsTrueTimeIff(sb, b);
  }

  /** And only then: a record whose scaling wraps comes before an earlier one. */
  lemma TimeOrderIff(sa: Scale, a: RawRecord)
    ensures (forall sb: Scale, b: RawRecord :: ScalesExactly(sb, b) ==>
               (Key(Stamp(sa, a)) < Key(Stamp(sb, b)) <==> Seconds(sa, a) < Seconds(sb, b)))
            <==> ScalesExactly(sa, a)
  {
    hide Key, Seconds;
    if ScalesExactly(sa, a) {
      forall sb: Scale, b: RawRecord | ScalesExactly(sb, b)
        ensures Key(Stamp(sa, a)) < Key(Stamp(sb, b)) <==> Seconds(sa, a) < Seconds(sb, b)
      {
        MixedFilesCompareByTime(sa, a, sb, b);
      }
    } else {
      var b := RawRecord(a.sec, a.frac * 1000 % 0x1_0000_0000 + 1, 0, []);
      WrappedIsLate(a, b);
      assert ScalesExactly(PassThrough, b);
    }
  }

  lemma WrappedIsLate(a: RawRecord, b: RawRecord)
    requires a.frac > 4_294_967 && b.sec == a.sec && b.frac == a.frac * 1000 % 0x1_0000_0000 + 1
    ensures Key(Stamp(Up, a)) < Key(Stamp(PassThrough, b)) && Seconds(PassThrough, b) < Seconds(Up, a)
  {
    KeyNeverOverflows(Stamp(Up, a));
    KeyIsTrueTimeIff(PassThrough, b);
    assert Seconds(Up, a) * 1_000_000_000.0 == (a.sec * 1_000_000_000 + a.frac * 1000) as real;
  }
}
