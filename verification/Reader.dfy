/** pcap::Reader: header acceptance, then one packet per call into a reusable buffer. */
module Readers {
  import opened Bytes
  import opened PcapFormat
  import opened FileReaders

  /** A packet is a header and a pointer; it is empty when the pointer is null. */
  datatype Packet = Packet(sec: u32, nsec: u32, caplen: u32, len: u32, data: array?<byte>) {
    predicate Present() {
      data != null
    }

    /** This packet stands for record r right now. */
    ghost predicate Shows(r: Record)
      reads data
    {
      && data != null && |r.data| == caplen <= data.Length && data[..caplen] == r.data
      && sec == r.sec && nsec == r.nsec && len == r.len
    }
  }

  const EMPTY: Packet := Packet(0, 0, 0, 0, null)

  /** The fields of a record header are those of the bytes it was read from. */
  lemma HeaderOf(b: seq<byte>, head: seq<byte>)
    requires |b| >= PACKET_HEADER_SIZE && head == b[..PACKET_HEADER_SIZE]
    ensures U32At(head, 0) == U32At(b, 0) && U32At(head, 4) == U32At(b, 4)
    ensures U32At(head, 8) == U32At(b, 8) && U32At(head, 12) == U32At(b, 12)
  {
    hide LeValue;
    CutSlice(b, PACKET_HEADER_SIZE, 0, 4);
    CutSlice(b, PACKET_HEADER_SIZE, 4, 8);
    CutSlice(b, PACKET_HEADER_SIZE, 8, 12);
    CutSlice(b, PACKET_HEADER_SIZE, 12, 16);
  }

  /** ReadOne in the two reads that readPacket makes of it. */
  lemma ReadOneParts(scale: Scale, snaplen: nat, b: seq<byte>)
    requires |b| >= PACKET_HEADER_SIZE
    ensures var caplen, body := U32At(b, 8), Skip(b, PACKET_HEADER_SIZE);
      ReadOne(scale, snaplen, b) ==
      if caplen > snaplen then Oversize(body)
      else if |body| < caplen then DataCut
      else Got(Record(U32At(b, 0), ScaleFraction(scale, U32At(b, 4)), U32At(b, 12), body[..caplen]), Skip(body, caplen))
  {
    hide U32At, ScaleFraction;
    var caplen := U32At(b, 8);
    if PACKET_HEADER_SIZE + caplen <= |b| {
      assert b[PACKET_HEADER_SIZE..PACKET_HEADER_SIZE + caplen] == b[PACKET_HEADER_SIZE..][..caplen];
    }
  }

  class Reader {
    const file: FileReader
    const scale: Scale
    const buffer: array<byte>
    ghost const Repr: set<object>

    ghost predicate Valid()
      reads Repr
    {
      && Repr == {this, buffer} + file.Repr && file in file.Repr
      && this !in file.Repr && buffer !in file.Repr
      && file.Valid()
      && buffer.Length <= MAX_SNAP_LEN
    }

    /** The packets still to come before the first empty one. */
    ghost function Upcoming(): seq<Record>
      requires Valid()
      reads Repr
    {
      Packets(scale, buffer.Length, file.Remaining())
    }

    /** `buffer_.data()`: null for a vector that never held anything. */
    function Data(): array?<byte> {
      if buffer.Length == 0 then null else buffer
    }

    /** Where construction leaves the reader: right behind an accepted header with a buffer of the snap length, or on a
        stream without bytes and with an empty buffer. */
    ghost predicate OpenedOn(content: Content)
      requires Valid()
      reads Repr
    {
      Positioned(file, scale, buffer.Length, content)
    }

    static ghost predicate Positioned(input: FileReader, scale: Scale, size: nat, content: Content)
      requires input.Valid()
      reads input.Repr
    {
      var b := content.bytes;
      if |b| >= FILE_HEADER_SIZE && ParseHeader(b[..FILE_HEADER_SIZE]).Accepted?
      then input.Remaining() == Skip(b, FILE_HEADER_SIZE) && Accepted(scale, size) == ParseHeader(b[..FILE_HEADER_SIZE])
           && input.content == content
      else input.Remaining() == [] && size == 0 && !input.content.neverEof
    }

    /** Whatever the file, the reader is usable afterwards: a rejected one reads from an empty stream in good state. */
    constructor (f: DiskFile, c: Codecs)
      requires Usable(c)
      ensures Valid() && fresh(Repr) && this in Repr && buffer in Repr
      ensures Upcoming() == FilePackets(ContentOf(f, c).bytes)
      ensures file.Ok() && file.Good()
      ensures OpenedOn(ContentOf(f, c))
    {
      hide Usable, FilePackets, Packets, Positioned, FileReader.Valid, FileReader.Remaining, FileReader.Ok,
        FileReader.Good;
      var input, s, size := OpenInput(f, c);
      PositionedPackets(input, s, size, ContentOf(f, c));
      file, scale := input, s;
      var b := new byte[size];
      buffer := b;
      Repr := {this, b} + input.Repr;
    }

    /** The construction of file_ and readFileHeader. */
    static method OpenInput(f: DiskFile, c: Codecs) returns (input: FileReader, scale: Scale, size: nat)
      requires Usable(c)
      ensures input.Valid() && fresh(input.Repr) && input in input.Repr && input.Ok() && input.Good()
      ensures Positioned(input, scale, size, ContentOf(f, c)) && size <= MAX_SNAP_LEN
    {
      hide ParseHeader, Skip, FileReader.Valid, FileReader.Remaining, FileReader.Ok, FileReader.Good;
      input := new FileReader.Open(f, c);
      var format := ReadFileHeader(input);
      if format == Rejected {
        input := new FileReader.Default();
        return input, PassThrough, 0;
      }
      GoodIsOk(input);
      return input, format.scale, format.snaplen;
    }

    /** The header decides; an accepted one leaves the stream right behind it. */
    static method ReadFileHeader(input: FileReader) returns (format: Format)
      requires input.Valid()
      modifies input.Repr
      ensures input.Valid()
      ensures var b := old(input.Remaining());
        && format == (if |b| < FILE_HEADER_SIZE then Rejected else ParseHeader(b[..FILE_HEADER_SIZE]))
        && (format.Accepted? ==> input.Remaining() == Skip(b, FILE_HEADER_SIZE) && input.Good() == old(input.Good())
                                 && format.snaplen <= MAX_SNAP_LEN)
    {
      hide ParseHeader, Skip, FileReader.Valid, FileReader.Remaining;
      var head := new byte[FILE_HEADER_SIZE];
      var count := input.Read(head, FILE_HEADER_SIZE);
      if count != FILE_HEADER_SIZE {
        return Rejected;
      }
      format := ParseHeader(head[..FILE_HEADER_SIZE]);
      if format.Accepted? {
        SnapLenBound(head[..FILE_HEADER_SIZE]);
      }
    }

    /** readPacket, seen by a caller that stops at the first empty packet. */
    method ReadPacket() returns (p: Packet)
      requires Valid()
      modifies Repr
      ensures Valid()
      ensures p.Present() <==> old(Upcoming()) != []
      ensures p.Present() ==>
                && p.data == buffer && p.Shows(old(Upcoming())[0])
                && Upcoming() == old(Upcoming())[1..]
    {
      hide ReadOne, Packets, FileReader.Remaining, FileReader.Valid, FileReader.Good, FileReader.Eof;
      UpcomingStep(scale, buffer.Length, file.Remaining());
      p := ReadNext();
    }

    /** readPacket does exactly what ReadOne says to the remaining bytes; the record's data lands in the buffer. */
    method ReadNext() returns (p: Packet)
      requires Valid()
      modifies Repr
      ensures Valid()
      ensures var o := ReadOne(scale, buffer.Length, old(file.Remaining()));
        match o
        case Got(r, rest) =>
          && p == Packet(r.sec, r.nsec, |r.data|, r.len, Data()) && buffer[..|r.data|] == r.data
          && file.Remaining() == rest && file.Good() == old(file.Good()) && file.Eof() == old(file.Eof())
        case Oversize(rest) =>
          && p == Packet(0, 0, 0, 0, null)
          && file.Remaining() == rest && file.Good() == old(file.Good()) && file.Eof() == old(file.Eof())
        case _ =>
          && p == Packet(0, 0, 0, 0, null) && file.Remaining() == [] && !file.Good()
    {
      hide U32At, ReadOne, ScaleFraction, Skip, FileReader.Valid, FileReader.Remaining, FileReader.Good, FileReader.Eof;
      ghost var b := file.Remaining();
      var head := new byte[PACKET_HEADER_SIZE];
      var count := file.Read(head, PACKET_HEADER_SIZE);
      if count != PACKET_HEADER_SIZE {
        CutHeader(scale, buffer.Length, b);
        return EMPTY;
      }
      HeaderOf(b, head[..PACKET_HEADER_SIZE]);
      ReadOneParts(scale, buffer.Length, b);
      var h := head[..PACKET_HEADER_SIZE];
      var sec, nsec, caplen, len := U32At(h, 0), ScaleFraction(scale, U32At(h, 4)), U32At(h, 8), U32At(h, 12);
      if caplen > buffer.Length {
        return EMPTY;
      }
      count := file.Read(buffer, caplen);
      if count != caplen {
        return EMPTY;
      }
      p := Packet(sec, nsec, caplen, len, Data());
    }
  }

  lemma PositionedPackets(input: FileReader, scale: Scale, size: nat, content: Content)
    requires input.Valid() && Reader.Positioned(input, scale, size, content)
    ensures Packets(scale, size, input.Remaining()) == FilePackets(content.bytes)
  {
    hide ParseHeader;
  }

  lemma UpcomingStep(scale: Scale, snaplen: nat, b: seq<byte>)
    ensures var ps, o := Packets(scale, snaplen, b), ReadOne(scale, snaplen, b);
      && (ps != [] <==> snaplen > 0 && o.Got?)
      && (ps != [] ==> ps[0] == o.record && ps[1..] == Packets(scale, snaplen, o.rest))
  {
  }

  lemma SnapLenBound(b: seq<byte>)
    requires |b| == FILE_HEADER_SIZE && ParseHeader(b).Accepted?
    ensures ParseHeader(b).snaplen <= MAX_SNAP_LEN
  {
  }

  lemma CutHeader(scale: Scale, snaplen: nat, b: seq<byte>)
    requires |b| < PACKET_HEADER_SIZE
    ensures ReadOne(scale, snaplen, b) == HeaderCut
  {
  }

  lemma GoodIsOk(f: FileReader)
    requires f.Valid() && f.Good()
    ensures f.Ok()
  {
  }
}
