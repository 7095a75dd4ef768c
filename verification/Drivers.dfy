/** The two example programs: counting all packets of several captures, and reading one capture until end of file. */
module Drivers {
  import opened Bytes
  import opened Decoders
  import opened PcapFormat
  import LzmaPump
  import opened FileReaders
  import opened Readers
  import opened PacketSources
  import opened Merge
  import opened MergeRuns
  import opened SortedMerge

  /** What each file contributes to a merge. */
  function Contributions(files: seq<DiskFile>, c: Codecs): seq<seq<Record>>
    requires Usable(c)
  {
    seq(|files|, i requires 0 <= i < |files| => FilePackets(ContentOf(files[i], c).bytes))
  }

  /** addFile for every argument of the program. */
  method AddAll(source: PcapPacketSource, files: seq<DiskFile>)
    requires source.Valid() && source.model == START
    modifies source.Repr
    ensures source.Valid() && fresh(source.Repr - old(source.Repr))
    ensures source.model == Run(Adds(Contributions(files, source.codecs))).state
    ensures source.doneCalls == old(source.doneCalls) && source.hasDoneCallback == old(source.hasDoneCallback)
  {
    hide PcapPacketSource.Valid, Run, FilePackets, ContentOf, Merge.AddFile;
    ghost var c := source.codecs;
    source.MachineValid();
    AddsNone();
    for i := 0 to |files|
      invariant source.Valid() && source.codecs == c && fresh(source.Repr - old(source.Repr))
      invariant source.model == Run(Adds(Contributions(files[..i], c))).state
      invariant source.doneCalls == old(source.doneCalls) && source.hasDoneCallback == old(source.hasDoneCallback)
    {
      source.AddFile(files[i]);
      OneMore(files, i, c);
    }
    assert files[..|files|] == files;
  }

  lemma AddsNone()
    ensures Run(Adds([])).state == START
  {
  }

  lemma OneMore(files: seq<DiskFile>, i: nat, c: Codecs)
    requires Usable(c) && i < |files|
    ensures Run(Adds(Contributions(files[..i + 1], c))).state ==
            Merge.AddFile(Run(Adds(Contributions(files[..i], c))).state, FilePackets(ContentOf(files[i], c).bytes))
  {
    hide Run, FilePackets, ContentOf, Merge.AddFile;
    var packets := FilePackets(ContentOf(files[i], c).bytes);
    assert Adds(Contributions(files[..i + 1], c)) == Adds(Contributions(files[..i], c)) + [Add(packets)];
    RunThen(Adds(Contributions(files[..i], c)), Add(packets));
  }

  /** examples/packet_source.cpp: the program counts every packet of every file, hands them out in the order of MergeOf,
      and calls readNextPacket once more than there are packets, unless there is none. */
  method CountPackets(files: seq<DiskFile>, codecs: Codecs, withCallback: bool)
    returns (count: nat, doneCalls: nat, ghost calls: nat, ghost delivered: seq<Head>)
    requires Usable(codecs)
    ensures count == Total(Contributions(files, codecs))
    ensures doneCalls == if withCallback && count > 0 then 1 else 0
    ensures delivered == MergeOf(Contributions(files, codecs))
    ensures calls == if count == 0 then 0 else count + 1
  {
    hide PcapPacketSource.Valid, Run, Contributions, Drive, ReadNext, Merge.Valid, Pending, Usable;
    var source := new PcapPacketSource(codecs, withCallback);
    AddAll(source, files);
    ghost var all := Contributions(files, codecs);
    AllAdded(all);
    ghost var whole := Drive(source.model);
    DriveAll(all);
    source.MachineValid();
    count, calls, delivered := 0, 0, [];
    while !source.IsDone()
      invariant source.Valid() && fresh(source.Repr) && Merge.Valid(source.model)
      invariant source.IsDone() <==> Merge.IsDone(source.model)
      invariant source.hasDoneCallback == withCallback
      invariant count == |delivered|
      invariant whole.delivered == delivered + Drive(source.model).delivered
      invariant whole.calls == calls + Drive(source.model).calls
      invariant source.doneCalls ==
                if withCallback then whole.callbacks - Drive(source.model).callbacks else 0
      decreases Pending(source.model), !Merge.IsDone(source.model)
    {
      DriveStep(source.model);
      ReadNextPending(source.model);
      ghost var out := ReadNext(source.model).1;
      ghost var rest := Drive(ReadNext(source.model).0);
      var packet := source.ReadNextPacket();
      if packet.Present() {
        count := count + 1;
      }
      Associative(delivered, Delivery(out), rest.delivered);
      calls, delivered := calls + 1, delivered + Delivery(out);
      source.MachineValid();
    }
    DriveStep(source.model);
    doneCalls := source.doneCalls;
  }

  lemma DriveStep(s: State)
    requires Merge.Valid(s)
    ensures Merge.Valid(ReadNext(s).0)
    ensures var (r, out) := ReadNext(s);
      Drive(s) == if Merge.IsDone(s) then Driven(0, [], 0, s)
                  else Driven(Drive(r).calls + 1, Delivery(out) + Drive(r).delivered,
                              Drive(r).callbacks + (if out.None? then 1 else 0), Drive(r).last)
  {
    hide Merge.Valid, ReadNext;
    ReadNextPending(s);
  }

  lemma DriveAll(all: seq<seq<Record>>)
    ensures var s := Run(Adds(all)).state;
      && Merge.Valid(s) && s.current.None?
      && (Merge.IsDone(s) <==> Total(all) == 0)
      && Drive(s).calls == (if Total(all) == 0 then 0 else Total(all) + 1)
      && Drive(s).callbacks == (if Total(all) == 0 then 0 else 1)
      && |Drive(s).delivered| == Total(all) && Drive(s).delivered == MergeOf(all)
  {
    hide Run, Merge.Valid, ReadNext;
    AllAdded(all);
    var s := Run(Adds(all)).state;
    DriverCost(s);
    if Merge.IsDone(s) {
      DoneIsEmpty(s);
    } else {
      NotDonePending(s);
    }
  }

  lemma NotDonePending(s: State)
    requires !Merge.IsDone(s) && s.current.None?
    ensures Pending(s) > 0
  {
  }

  // ----- one capture -----

  /** The packets a caller finds that goes on after an oversized record, as the example program does. */
  function Lenient(scale: Scale, snaplen: nat, b: seq<byte>): seq<Record>
    decreases |b|
  {
    match ReadOne(scale, snaplen, b)
    case Got(record, rest) => (if snaplen == 0 then [] else [record]) + Lenient(scale, snaplen, rest)
    case Oversize(rest) => Lenient(scale, snaplen, rest)
    case _ => []
  }

  /** The strict reading of a merge is a start of the lenient one. */
  lemma {:induction false} StrictIsPrefix(scale: Scale, snaplen: nat, b: seq<byte>)
    ensures Packets(scale, snaplen, b) <= Lenient(scale, snaplen, b)
    decreases |b|
  {
    var o := ReadOne(scale, snaplen, b);
    if o.Got? && snaplen > 0 {
      hide ReadOne;
      StrictIsPrefix(scale, snaplen, o.rest);
    }
  }

  /** The record that a packet shows right now. */
  ghost function Shown(p: Packet): Record
    requires p.Present() && p.caplen <= p.data.Length
    reads p.data
  {
    Record(p.sec, p.nsec, p.len, p.data[..p.caplen])
  }

  /** examples/pcap_reader.cpp, stopped after `budget` calls if it has not ended by then. It meets packets of the
      lenient reading only, in order, and all of them once the calls outnumber the 16-byte blocks; by then it has ended,
      if the stream can report end of file at all. */
  method ReadUntilEof(reader: Reader, budget: nat)
    returns (count: nat, ended: bool, ghost shown: seq<Record>, ghost calls: nat)
    requires reader.Valid()
    modifies reader.Repr
    ensures reader.Valid() && ended == reader.file.Eof() && calls <= budget && (!ended ==> calls == budget)
    ensures count == |shown|
    ensures shown <= Lenient(reader.scale, reader.buffer.Length, old(reader.file.Remaining()))
    ensures ended || PACKET_HEADER_SIZE * budget > |old(reader.file.Remaining())| ==>
              shown == Lenient(reader.scale, reader.buffer.Length, old(reader.file.Remaining()))
    ensures reader.file.content.neverEof ==> !ended
    ensures !reader.file.content.neverEof && PACKET_HEADER_SIZE * budget > |old(reader.file.Remaining())| ==> ended
    ensures !reader.file.content.neverEof ==> PACKET_HEADER_SIZE * (calls - 1) <= |old(reader.file.Remaining())|
  {
    hide ReadOne, Lenient, FileReader.Valid, FileReader.Remaining, FileReader.Good, FileReader.Eof;
    count, shown, calls := 0, [], 0;
    EofMeans(reader.file);
    ghost var all := reader.file.Remaining();
    ghost var scale, size := reader.scale, reader.buffer.Length;
    var left := budget;
    while left > 0 && !reader.file.Eof()
      invariant reader.Valid() && count == |shown| && calls + left == budget
      invariant reader.file.Eof() <==> !reader.file.Good() && !reader.file.content.neverEof
      invariant !reader.file.Good() ==> reader.file.Remaining() == []
      invariant Lenient(scale, size, all) == shown + Lenient(scale, size, reader.file.Remaining())
      invariant reader.file.Good() ==> PACKET_HEADER_SIZE * calls + |reader.file.Remaining()| <= |all|
      invariant !reader.file.content.neverEof ==> PACKET_HEADER_SIZE * (calls - 1) <= |all|
      decreases left
    {
      ghost var b := reader.file.Remaining();
      LenientStep(scale, size, b);
      NothingLeft(scale, size);
      var packet := reader.ReadNext();
      if packet.Present() {
        count := count + 1;
        Associative(shown, [Shown(packet)], Lenient(scale, size, reader.file.Remaining()));
        shown := shown + [Shown(packet)];
      }
      calls, left := calls + 1, left - 1;
      EofMeans(reader.file);
    }
    ended := reader.file.Eof();
    NothingLeft(scale, size);
  }

  lemma LenientStep(scale: Scale, snaplen: nat, b: seq<byte>)
    ensures var o := ReadOne(scale, snaplen, b);
      Lenient(scale, snaplen, b) ==
      if o.Got? then (if snaplen == 0 then [] else [o.record]) + Lenient(scale, snaplen, o.rest)
      else if o.Oversize? then Lenient(scale, snaplen, o.rest)
      else []
    ensures var o := ReadOne(scale, snaplen, b);
      o.Got? || o.Oversize? ==> |o.rest| + PACKET_HEADER_SIZE <= |b|
  {
  }

  lemma NothingLeft(scale: Scale, snaplen: nat)
    ensures Lenient(scale, snaplen, []) == []
  {
  }

  lemma EofMeans(f: FileReader)
    requires f.Valid()
    ensures f.Eof() <==> !f.Good() && !f.content.neverEof
    ensures !f.Good() ==> f.Remaining() == []
  {
    if !f.Good() {
      f.AtTheEnd();
    }
  }

  /** A stream that ends in an exception reports end of file in no state it can reach: the same loop would not end. */
  lemma NoEofAfterException(reader: Reader)
    requires reader.Valid() && reader.file.content.neverEof
    ensures !reader.file.Eof()
  {
    if !reader.file.Good() {
      reader.file.AtTheEnd();
    }
  }

  predicate HeaderAccepted(b: seq<byte>) {
    |b| >= FILE_HEADER_SIZE && ParseHeader(b[..FILE_HEADER_SIZE]).Accepted?
  }

  /** The captures on which the program hangs: xz files that are not well-formed, but from which an acceptable header
      can be read. */
  ghost predicate Hangs(f: DiskFile, c: Codecs, xz: Encoding)
    requires Usable(c)
  {
    f.Xz? && HeaderAccepted(ContentOf(f, c).bytes) && !exists o :: xz(c.lzma.start, f.bytes, o)
  }

  /** They are the files whose reader can never report end of file. */
  lemma NeverEofIff(reader: Reader, f: DiskFile, c: Codecs, xz: Encoding)
    requires Usable(c) && DecodesFiles(c.lzma, xz) && Recognises(c.lzma, xz)
    requires reader.Valid() && reader.OpenedOn(ContentOf(f, c))
    ensures reader.file.content.neverEof <==> Hangs(f, c, xz)
  {
    hide ParseHeader, DecodesFiles, Recognises, Lawful, Latching, LzmaPump.Deliver, FileReader.Valid,
      FileReader.Remaining;
    if f.Xz? {
      LzmaPump.CleanEndIff(c.lzma, xz, f.bytes);
    }
  }

  /** The packets of a whole file as the example program finds them. */
  function LenientPackets(b: seq<byte>): seq<Record> {
    if !HeaderAccepted(b) then []
    else
      var format := ParseHeader(b[..FILE_HEADER_SIZE]);
      Lenient(format.scale, format.snaplen, Skip(b, FILE_HEADER_SIZE))
  }

  /** A merge takes a start of these packets. */
  lemma FileStrictIsPrefix(b: seq<byte>)
    ensures FilePackets(b) <= LenientPackets(b)
  {
    hide Lenient, Packets, ParseHeader;
    if HeaderAccepted(b) {
      var format := ParseHeader(b[..FILE_HEADER_SIZE]);
      StrictIsPrefix(format.scale, format.snaplen, b[FILE_HEADER_SIZE..]);
    }
  }

  /** Where a merge stops at an oversized record, this reading goes on behind its header; otherwise both stop. */
  lemma {:induction false} LenientResumes(scale: Scale, snaplen: nat, b: seq<byte>)
    requires snaplen > 0
    ensures var ps := Packets(scale, snaplen, b);
      && Span(ps) <= |b|
      && var o := ReadOne(scale, snaplen, b[Span(ps)..]);
         Lenient(scale, snaplen, b) == ps + (if o.Oversize? then Lenient(scale, snaplen, o.rest) else [])
    decreases |b|
  {
    hide ReadOne;
    var o := ReadOne(scale, snaplen, b);
    if o.Got? {
      LenientResumes(scale, snaplen, o.rest);
      var later := Packets(scale, snaplen, o.rest);
      SpanFirst(o.record, later);
      PacketsStep(scale, snaplen, b);
      assert o.rest[Span(later)..] == b[Span([o.record] + later)..];
    } else {
      assert b[0..] == b;
    }
  }

  lemma {:induction false} SpanFirst(r: Record, later: seq<Record>)
    ensures Span([r] + later) == PACKET_HEADER_SIZE + |r.data| + Span(later)
  {
    if later == [] {
      assert [r] + later == [r] && [r][..0] == [];
    } else {
      assert ([r] + later)[..|later|] == [r] + later[..|later| - 1];
      SpanFirst(r, later[..|later| - 1]);
    }
  }

  function Stamps(scale: Scale, records: seq<RawRecord>): seq<Record> {
    seq(|records|, i requires 0 <= i < |records| => Stamp(scale, records[i]))
  }

  /** Written records that fit, with anything behind them: their stamps, and what is found behind them. */
  lemma {:induction false} LenientRecords(scale: Scale, snaplen: nat, records: seq<RawRecord>, tail: seq<byte>)
    requires Writable(records) && snaplen > 0 && forall r <- records :: |r.data| <= snaplen
    ensures Lenient(scale, snaplen, EncodeRecords(records) + tail) ==
            Stamps(scale, records) + Lenient(scale, snaplen, tail)
  {
    hide ReadOne, EncodeRecord;
    if records == [] {
      assert EncodeRecords(records) + tail == tail;
      NothingAhead(Lenient(scale, snaplen, tail));
    } else {
      var later := EncodeRecords(records[1..]) + tail;
      Associative(EncodeRecord(records[0]), EncodeRecords(records[1..]), tail);
      RecordRoundTrip(scale, snaplen, records[0], later);
      LenientRecords(scale, snaplen, records[1..], tail);
      LenientStep(scale, snaplen, EncodeRecord(records[0]) + later);
      assert Stamps(scale, records) == [Stamp(scale, records[0])] + Stamps(scale, records[1..]);
      Associative([Stamp(scale, records[0])], Stamps(scale, records[1..]), Lenient(scale, snaplen, tail));
    }
  }

  /** An oversized record is skipped by its header only: what is found next lies in its data and behind. */
  lemma LenientOversize(scale: Scale, snaplen: nat, before: seq<RawRecord>, r: RawRecord, tail: seq<byte>)
    requires Writable(before) && snaplen > 0 && forall q <- before :: |q.data| <= snaplen
    requires snaplen < |r.data| < 0x1_0000_0000
    ensures Lenient(scale, snaplen, EncodeRecords(before) + (EncodeRecord(r) + tail)) ==
            Stamps(scale, before) + Lenient(scale, snaplen, r.data + tail)
  {
    hide ReadOne, EncodeRecord, EncodeRecords, Stamps;
    LenientRecords(scale, snaplen, before, EncodeRecord(r) + tail);
    RecordRoundTrip(scale, snaplen, r, tail);
    LenientStep(scale, snaplen, EncodeRecord(r) + tail);
  }

  /** Main result: of a written file whose records fit, the program finds all records, in order and with nanosecond
      stamps; it finds none if the header is not supported or the snap length is zero. */
  lemma LenientRoundTrip(h: FileHeader, records: seq<RawRecord>)
    requires Writable(records)
    ensures Supported(h) && h.snaplen > 0 && (forall r <- records :: |r.data| <= h.snaplen) ==>
              LenientPackets(EncodeFile(h, records)) == Stamps(ScaleOf(h), records)
    ensures !Supported(h) || h.snaplen == 0 ==> LenientPackets(EncodeFile(h, records)) == []
  {
    hide ParseHeader, EncodeHeader, EncodeRecords, Lenient, ScaleOf, Stamps;
    HeaderRoundTrip(h);
    var b := EncodeFile(h, records);
    assert b[..FILE_HEADER_SIZE] == EncodeHeader(h) && Skip(b, FILE_HEADER_SIZE) == EncodeRecords(records);
    if Supported(h) && h.snaplen == 0 {
      EmptyBuffer(ScaleOf(h), EncodeRecords(records));
    } else if Supported(h) && forall r <- records :: |r.data| <= h.snaplen {
      LenientRecords(ScaleOf(h), h.snaplen, records, []);
      NothingLeft(ScaleOf(h), h.snaplen);
      assert EncodeRecords(records) + [] == EncodeRecords(records);
      assert Stamps(ScaleOf(h), records) + [] == Stamps(ScaleOf(h), records);
    }
  }

  /** Of any file with a supported header, the program finds what the lenient reading finds behind the header. */
  lemma LenientBody(h: FileHeader, body: seq<byte>)
    requires Supported(h)
    ensures LenientPackets(EncodeHeader(h) + body) == Lenient(ScaleOf(h), h.snaplen, body)
  {
    hide ParseHeader, EncodeHeader, Lenient, ScaleOf;
    HeaderRoundTrip(h);
    var b := EncodeHeader(h) + body;
    assert b[..FILE_HEADER_SIZE] == EncodeHeader(h) && Skip(b, FILE_HEADER_SIZE) == body;
  }

  /** With an empty buffer no packet is seen. */
  lemma {:induction false} EmptyBuffer(scale: Scale, b: seq<byte>)
    ensures Lenient(scale, 0, b) == []
    decreases |b|
  {
    var o := ReadOne(scale, 0, b);
    if o.Got? || o.Oversize? {
      hide ReadOne;
      EmptyBuffer(scale, o.rest);
    }
  }

  /** Main result: examples/pcap_reader.cpp on any file. With calls to spare it finds all packets, and it ends unless
      the file is one that it hangs on, in which case no number of calls ends it. */
  method ReadCapture(f: DiskFile, c: Codecs, budget: nat, ghost xz: Encoding)
    returns (count: nat, ended: bool, ghost shown: seq<Record>)
    requires Usable(c) && DecodesFiles(c.lzma, xz) && Recognises(c.lzma, xz)
    ensures Hangs(f, c, xz) ==> !ended
    ensures PACKET_HEADER_SIZE * budget > |ContentOf(f, c).bytes| ==> (ended <==> !Hangs(f, c, xz))
    ensures count == |shown| && shown <= LenientPackets(ContentOf(f, c).bytes)
    ensures ended || PACKET_HEADER_SIZE * budget > |ContentOf(f, c).bytes| ==>
              shown == LenientPackets(ContentOf(f, c).bytes)
    ensures ended || PACKET_HEADER_SIZE * budget > |ContentOf(f, c).bytes| ==>
              count == |LenientPackets(ContentOf(f, c).bytes)|
  {
    hide ParseHeader, Lenient, DecodesFiles, Recognises, Usable, Hangs, ContentOf, FileReader.Valid,
      FileReader.Remaining, FileReader.Eof;
    var reader := new Reader(f, c);
    NeverEofIff(reader, f, c, xz);
    NothingLeft(reader.scale, reader.buffer.Length);
    ghost var calls;
    count, ended, shown, calls := ReadUntilEof(reader, budget);
  }
}
