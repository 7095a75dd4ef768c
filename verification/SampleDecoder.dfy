/** A small run-length codec that meets every clause of the decoder contract, so that the contract is not empty. */
module SampleDecoders {
  import opened Bytes
  import opened Decoders
  import opened DecoderRuns
  import opened PcapFormat
  import opened ReadAheads
  import opened GZipRefill
  import opened LzmaPump
  import opened GZipStreams
  import opened FileReaders
  import opened Drivers
  import opened Transparency

  // A compressed text is a list of pairs (count, byte), counts at least 1, closed by a zero byte; a file is one or more
  // texts. The memory is [] between pairs, [count] inside one, [count, byte] while copies are due, [0] after the zero,
  // and longer once it has stopped.
  const ENDED: Memory := [0, 0, 0]
  const FAILED: Memory := [0, 0, 0, 0]

  function Copies(n: nat, b: byte): seq<byte> {
    seq(n, _ => b)
  }

  predicate Due(mem: Memory) {
    |mem| == 2 && mem[0] >= 1 && 0 <= mem[1] < 256
  }

  /** A pair or the closing zero may come next; in a file, a text may follow another. */
  predicate Open(members: bool, mem: Memory) {
    mem == [] || (mem == [0] && !members)
  }

  function Rank(mem: Memory): nat {
    if Due(mem) then mem[0] else 0
  }

  /** One call; a member decoder ends with the zero byte, a file decoder when it is told to finish after one. */
  function RunLengthStep(members: bool, mem: Memory, chunk: seq<byte>, room: nat, finish: bool): Step {
    if members && mem == ENDED then Step(mem, 0, [], End)
    else if Due(mem) then
      var k := Min(room, mem[0]);
      Step(if k == mem[0] then [] else [mem[0] - k, mem[1]], 0, Copies(k, mem[1]), Ok)
    else if mem == [0] && chunk == [] && finish && !members then Step(ENDED, 0, [], End)
    else if chunk == [] then Step(FAILED, 0, [], Fail)
    else if Open(members, mem) && chunk[0] == 0 then
      if members then Step(ENDED, 1, [], End) else Step([0], 1, [], Ok)
    else if Open(members, mem) then Step([chunk[0] as int], 1, [], Ok)
    else if |mem| == 1 && mem[0] >= 1 then Step([mem[0], chunk[0] as int], 1, [], Ok)
    else Step(FAILED, 0, [], Fail)
  }

  function RunLength(members: bool): Decoder {
    Decoder([], Rank, (mem: Memory, chunk: seq<byte>, room: nat, finish: bool) =>
              RunLengthStep(members, mem, chunk, room, finish))
  }

  /** The compressed bytes r decode to o from state mem. */
  predicate Encodes(members: bool, mem: Memory, r: seq<byte>, o: seq<byte>)
    decreases |r|, |mem|
  {
    if mem == [] then
      && r != []
      && if r[0] != 0 then Encodes(members, [r[0] as int], r[1..], o)
         else if members then r == [0] && o == []
         else Encodes(members, [0], r[1..], o)
    else if |mem| == 1 && mem[0] >= 1 then r != [] && Encodes(members, [mem[0], r[0] as int], r[1..], o)
    else if Due(mem) then
      |o| >= mem[0] && o[..mem[0]] == Copies(mem[0], mem[1]) && Encodes(members, [], r, o[mem[0]..])
    else !members && mem == [0] && ((r == [] && o == []) || Encodes(members, [], r, o))
  }

  function RunLengthEncoding(members: bool): Encoding {
    (mem: Memory, r: seq<byte>, o: seq<byte>) => Encodes(members, mem, r, o)
  }

  lemma SampleIsLawful(members: bool)
    ensures Lawful(RunLength(members)) && Latching(RunLength(members))
  {
    var d := RunLength(members);
    forall mem: Memory, chunk: seq<byte>, room: nat, finish: bool | room > 0
      ensures Obeys(d, mem, chunk, room, finish)
    {
      assert d.step(mem, chunk, room, finish) == RunLengthStep(members, mem, chunk, room, finish);
    }
    forall mem: Memory, chunk: seq<byte>, room: nat
      | chunk != [] && room > 0 && d.step(mem, chunk, room, false).code != Ok
      ensures Latched(d, d.step(mem, chunk, room, false).mem, d.step(mem, chunk, room, false).code)
    {
      assert d.step(mem, chunk, room, false) == RunLengthStep(members, mem, chunk, room, false);
    }
  }

  /** A member never ends before its zero byte. */
  lemma MemberNotEmpty(mem: Memory, r: seq<byte>, o: seq<byte>)
    requires Encodes(true, mem, r, o)
    ensures r != []
  {
    if Due(mem) {
      assert Encodes(true, [], r, o[mem[0]..]);
    }
  }

  /** Handing out k of n due copies. */
  lemma CopiesSplit(o: seq<byte>, n: nat, k: nat, b: byte)
    requires k <= n <= |o| && o[..n] == Copies(n, b)
    ensures Copies(k, b) <= o && o[k..][..n - k] == Copies(n - k, b) && o[k..][n - k..] == o[n..]
  {
    assert forall i :: 0 <= i < n ==> o[i] == o[..n][i];
  }

  /** What is left to decode after one step is encoded by what is left to read. */
  lemma StepDecodes(members: bool, mem: Memory, r: seq<byte>, o: seq<byte>, chunk: seq<byte>, room: nat, finish: bool)
    requires Encodes(members, mem, r, o) && room > 0 && (chunk <= r || (members && r <= chunk))
    ensures var s := RunLengthStep(members, mem, chunk, room, finish);
      && s.consumed <= |r| && s.consumed <= |chunk| && s.produced <= o
      && (s.code == Ok ==> Encodes(members, s.mem, r[s.consumed..], o[|s.produced|..]))
      && (s.code == Ok && members ==> s.consumed < |r|)
      && (s.code == End && (members || chunk == r) ==> s.consumed == |r| && s.produced == o)
      && (s.code == End && !members ==> finish && chunk == [] && Encodes(members, mem, [], s.produced))
      && (s.code == Fail ==> chunk == [] || (!members && chunk != r && r < chunk))
      && (s.code == Fail && finish && !members ==> chunk != r)
  {
    assert o[0..] == o && r[0..] == r;
    if Due(mem) {
      assert Encodes(members, [], r, o[mem[0]..]);
      CopiesSplit(o, mem[0], Min(room, mem[0]), mem[1]);
    } else if chunk != [] && r != [] {
      assert chunk[0] == r[0];
      var s := RunLengthStep(members, mem, chunk, room, finish);
      if members && s.code == Ok {
        MemberNotEmpty(s.mem, r[1..], o);
      }
    }
  }

  lemma SampleDecodesMembers()
    ensures DecodesMembers(RunLength(true), RunLengthEncoding(true))
  {
    hide RunLengthStep, Encodes;
    var d, e := RunLength(true), RunLengthEncoding(true);
    forall mem: Memory, r: seq<byte>, o: seq<byte>, chunk: seq<byte>, room: nat
      | e(mem, r, o) && chunk != [] && room > 0 && Comparable(chunk, r)
      ensures AdvancesMember(d, e, mem, r, o, chunk, room)
    {
      StepDecodes(true, mem, r, o, chunk, room, false);
    }
  }

  lemma SampleDecodesFiles()
    ensures DecodesFiles(RunLength(false), RunLengthEncoding(false))
  {
    hide RunLengthStep, Encodes;
    var d, e := RunLength(false), RunLengthEncoding(false);
    forall mem: Memory, r: seq<byte>, o: seq<byte>, chunk: seq<byte>, room: nat, finish: bool
      | e(mem, r, o) && room > 0 && chunk <= r && (chunk != [] || finish)
      ensures AdvancesFile(d, e, mem, r, o, chunk, room, finish)
    {
      StepDecodes(false, mem, r, o, chunk, room, finish);
    }
  }

  /** What completes the new state completes the old one with the bytes consumed in front. */
  lemma StepAccepts(mem: Memory, chunk: seq<byte>, room: nat, finish: bool, r: seq<byte>, o: seq<byte>)
    requires room > 0
    ensures var s := RunLengthStep(false, mem, chunk, room, finish);
      && (s.code == End ==> finish && Encodes(false, mem, chunk, s.produced))
      && (s.code == Ok && s.consumed <= |chunk| && Encodes(false, s.mem, r, o) ==>
            Encodes(false, mem, chunk[..s.consumed] + r, s.produced + o))
  {
    var s := RunLengthStep(false, mem, chunk, room, finish);
    var r', o' := chunk[..s.consumed] + r, s.produced + o;
    if s.code == Ok && Encodes(false, s.mem, r, o) {
      if Due(mem) {
        var k := |s.produced|;
        assert r' == r;
        assert o'[..mem[0]] == Copies(k, mem[1]) + o[..mem[0] - k] && o'[mem[0]..] == o[mem[0] - k..];
      } else {
        assert o' == o && r'[0] == chunk[0] && r'[1..] == r;
        assert Encodes(false, if mem == [0] then [] else mem, r', o);
      }
    }
  }

  lemma SampleRecognises()
    ensures Recognises(RunLength(false), RunLengthEncoding(false))
  {
    hide RunLengthStep, Encodes;
    var d, e := RunLength(false), RunLengthEncoding(false);
    forall mem: Memory, chunk: seq<byte>, room: nat, finish: bool | room > 0
      ensures Accepts(d, e, mem, chunk, room, finish)
    {
      StepAccepts(mem, chunk, room, finish, [], []);
      var s := d.step(mem, chunk, room, finish);
      forall r, o | e(s.mem, r, o) && s.code == Ok && s.consumed <= |chunk|
        ensures e(mem, chunk[..s.consumed] + r, s.produced + o)
      {
        StepAccepts(mem, chunk, room, finish, r, o);
      }
    }
  }

  function Compress(data: seq<byte>): seq<byte> {
    if data == [] then [0] else [1, data[0]] + Compress(data[1..])
  }

  lemma {:induction false} CompressEncodes(members: bool, data: seq<byte>)
    ensures Encodes(members, [], Compress(data), data)
  {
    if data != [] {
      CompressEncodes(members, data[1..]);
      var r := Compress(data);
      assert r[1..][1..] == Compress(data[1..]);
      assert data[..1] == Copies(1, data[0]);
      assert Encodes(members, [1, data[0] as int], r[1..][1..], data);
      assert Encodes(members, [1], r[1..], data);
    }
  }

  /** Texts follow one another. */
  lemma {:induction false} EncodesConcat(mem: Memory, r1: seq<byte>, o1: seq<byte>, r2: seq<byte>, o2: seq<byte>)
    requires Encodes(false, mem, r1, o1) && Encodes(false, [], r2, o2)
    ensures Encodes(false, mem, r1 + r2, o1 + o2)
    decreases |r1|, |mem|
  {
    if mem == [] || (|mem| == 1 && mem[0] >= 1) {
      assert (r1 + r2)[1..] == r1[1..] + r2;
      var next: Memory := if mem != [] then [mem[0], r1[0]] else [r1[0]];
      EncodesConcat(next, r1[1..], o1, r2, o2);
    } else if Due(mem) {
      assert (o1 + o2)[..mem[0]] == o1[..mem[0]] && (o1 + o2)[mem[0]..] == o1[mem[0]..] + o2;
      EncodesConcat([], r1, o1[mem[0]..], r2, o2);
    } else if Encodes(false, [], r1, o1) {
      EncodesConcat([], r1, o1, r2, o2);
    } else {
      assert r1 + r2 == r2 && o1 + o2 == o2;
    }
  }

  lemma SampleConcatenates()
    ensures Concatenates(RunLength(false), RunLengthEncoding(false))
  {
    hide Encodes;
    var d, e := RunLength(false), RunLengthEncoding(false);
    forall r1, o1, r2, o2 | e(d.start, r1, o1) && e(d.start, r2, o2)
      ensures e(d.start, r1 + r2, o1 + o2)
    {
      EncodesConcat([], r1, o1, r2, o2);
    }
  }

  /** The two sample libraries. */
  const SAMPLE := Codecs(RunLength(true), RunLength(false))

  /** The whole contract of the two libraries can be met. */
  lemma ContractIsMet()
    ensures Correct(SAMPLE, RunLengthEncoding(true), RunLengthEncoding(false))
    ensures Recognises(SAMPLE.lzma, RunLengthEncoding(false)) && Concatenates(SAMPLE.lzma, RunLengthEncoding(false))
  {
    hide DecodesMembers, DecodesFiles, Recognises, Concatenates, RunLength, RunLengthEncoding, Lawful, Latching;
    SampleIsLawful(true);
    SampleIsLawful(false);
    SampleDecodesMembers();
    SampleDecodesFiles();
    SampleRecognises();
    SampleConcatenates();
  }

  /** And any captures can be stored as MergeIgnoresCompression assumes: as a gzip member with anything behind it, as
      one xz stream, or as two. */
  lemma CapturesAreStored(a: seq<byte>, b: seq<byte>, tail: seq<byte>)
    ensures var gzip, xz := RunLengthEncoding(true), RunLengthEncoding(false);
      && Holds(GZip(Compress(a) + tail), a, SAMPLE, gzip, xz)
      && Holds(Xz(Compress(a)), a, SAMPLE, gzip, xz)
      && Holds(Xz(Compress(a) + Compress(b)), a + b, SAMPLE, gzip, xz)
  {
    hide Encodes;
    CompressEncodes(true, a);
    CompressEncodes(false, a);
    CompressEncodes(false, b);
    EncodesConcat([], Compress(a), a, Compress(b), b);
    var m := Compress(a);
    assert (m + tail)[..|m|] == m;
    assert IsMember(SAMPLE, RunLengthEncoding(true), m + tail, |m|, a);
  }

  /** A gzip file of two members that is not delivered completely. */
  lemma TwoMembersInput(a: seq<byte>, b: seq<byte>)
    requires b != []
    ensures Correct(SAMPLE, RunLengthEncoding(true), RunLengthEncoding(false))
    ensures RunLengthEncoding(true)([], Compress(a), a) && RunLengthEncoding(true)([], Compress(b), b)
    ensures ContentOf(GZip(Compress(a) + Compress(b)), SAMPLE) == Content(a, false) && a != a + b
  {
    hide DecodesMembers, DecodesFiles, Encodes, Lawful, Latching, Inflated;
    ContractIsMet();
    CapturesAreStored(a, b, Compress(b));
    CompressEncodes(true, a);
    CompressEncodes(true, b);
    HeldContent(GZip(Compress(a) + Compress(b)), a, SAMPLE, RunLengthEncoding(true), RunLengthEncoding(false));
    assert |a + b| > |a|;
  }

  // ----- a file cut before its last byte -----

  /** A text without its closing zero. */
  function Unclosed(data: seq<byte>): seq<byte> {
    if data == [] then [] else [1, data[0]] + Unclosed(data[1..])
  }

  lemma {:induction false} CompressCloses(data: seq<byte>)
    ensures Compress(data) == Unclosed(data) + [0]
  {
    if data != [] {
      CompressCloses(data[1..]);
    }
  }

  /** The decoder after one turn in the middle of a text. */
  lemma SampleTurn(x: Decoding)
    requires Lawful(RunLength(false)) && Consistent(x) && !x.outputDone
    ensures var t, r := RunCoder(RunLength(false), Feed(x)), x.avail + x.rest;
      var left := t.next.avail + t.next.rest;
      && (x.mem == [] && r == [] ==> t.threw && t.out == [])
      && (x.mem == [] && r != [] && r[0] == 1 ==> t == Turn(t.next, [], false) && t.next.mem == [1] && left == r[1..])
      && (x.mem == [1] && r != [] ==> t == Turn(t.next, [], false) && t.next.mem == [1, r[0]] && left == r[1..])
      && (|x.mem| == 2 && x.mem[0] == 1 && 0 <= x.mem[1] < 256 ==>
            t == Turn(t.next, [x.mem[1]], false) && t.next.mem == [] && left == r)
      && (!t.threw && x.mem != [0] ==> !t.next.outputDone && Consistent(t.next))
  {
    hide Lawful, Feed, RunCoder, RunLengthStep;
    FeedKeeps(x);
    TurnConsistent(RunLength(false), x);
    var y := Feed(x);
    var s := RunLengthStep(false, y.mem, y.avail, BUFFER_SIZE, y.inputDone);
    assert RunLength(false).step(y.mem, y.avail, BUFFER_SIZE, y.inputDone) == s;
    StepInText(y.mem, y.avail, y.inputDone);
    CoderIs(RunLength(false), y, s);
    ThrowsNothing(RunLength(false), y);
    assert y.avail != [] ==> (x.avail + x.rest)[0] == y.avail[0] && (x.avail + x.rest)[1..] == y.avail[1..] + y.rest;
  }

  lemma ThrowsNothing(d: Decoder, y: Decoding)
    requires Lawful(d)
    ensures RunCoder(d, y).threw ==> RunCoder(d, y).out == []
  {
  }

  lemma StepInText(mem: Memory, chunk: seq<byte>, finish: bool)
    ensures var s := RunLengthStep(false, mem, chunk, BUFFER_SIZE, finish);
      && (mem == [] && chunk == [] ==> s.code == Fail)
      && (mem == [] && chunk != [] && chunk[0] == 1 ==> s == Step([1], 1, [], Ok))
      && (mem == [1] && chunk != [] ==> s == Step([1, chunk[0] as int], 1, [], Ok))
      && (|mem| == 2 && mem[0] == 1 && 0 <= mem[1] < 256 ==> s == Step([], 0, [mem[1]], Ok))
      && (s.code == End ==> mem == [0])
  {
  }

  /** Three turns make one pump: the count, the byte, the copy. */
  lemma UnclosedPump(x: Decoding, b: byte, more: seq<byte>)
    requires Lawful(RunLength(false)) && Consistent(x) && !x.outputDone
    requires x.mem == [] && x.avail + x.rest == [1, b] + more
    ensures var t := Pump(RunLength(false), x);
      t == Turn(t.next, [b], false) && !t.next.outputDone && t.next.mem == [] && t.next.avail + t.next.rest == more
  {
    hide Lawful, RunCoder, Feed, Pump;
    var d := RunLength(false);
    SampleTurn(x);
    PumpStep(d, x);
    var x1 := RunCoder(d, Feed(x)).next;
    assert x1.avail + x1.rest == [b] + more;
    SampleTurn(x1);
    PumpStep(d, x1);
    var x2 := RunCoder(d, Feed(x1)).next;
    assert x2.avail + x2.rest == more;
    SampleTurn(x2);
    PumpStep(d, x2);
  }

  lemma {:induction false} UnclosedDelivered(x: Decoding, data: seq<byte>)
    requires Lawful(RunLength(false)) && Consistent(x) && !x.outputDone
    requires x.mem == [] && x.avail + x.rest == Unclosed(data)
    ensures Deliver(RunLength(false), x) == Delivery(data, true)
    decreases |data|
  {
    hide Lawful, RunCoder, Feed, Pump;
    var d := RunLength(false);
    if data == [] {
      SampleTurn(x);
      PumpStep(d, x);
    } else {
      UnclosedPump(x, data[0], Unclosed(data[1..]));
      UnclosedDelivered(Pump(d, x).next, data[1..]);
      assert data == [data[0]] + data[1..];
    }
  }

  /** An xz file without its last byte: all its bytes are delivered, and then comes the exception. */
  lemma CutInput(data: seq<byte>)
    ensures Usable(SAMPLE)
    ensures var stored := Compress(data); stored[..|stored| - 1] == Unclosed(data)
    ensures ContentOf(Xz(Unclosed(data)), SAMPLE) == Content(data, true)
  {
    hide Lawful, Latching, Deliver;
    SampleIsLawful(true);
    SampleIsLawful(false);
    CompressCloses(data);
    NothingAhead(Unclosed(data));
    UnclosedDelivered(LzmaPump.Start(RunLength(false), Unclosed(data)), data);
  }

  /** The start of a written file has an acceptable header if it has a header at all. */
  lemma HeaderOfStart(h: FileHeader, records: seq<RawRecord>, data: seq<byte>)
    requires Supported(h) && Writable(records) && data <= EncodeFile(h, records)
    ensures HeaderAccepted(data) <==> |data| >= FILE_HEADER_SIZE
  {
    hide ParseHeader, EncodeHeader, EncodeRecords;
    HeaderRoundTrip(h);
    if |data| >= FILE_HEADER_SIZE {
      assert data[..FILE_HEADER_SIZE] == EncodeHeader(h);
    }
  }

  /** A capture with an acceptable header, compressed and cut by its last byte, on which the loop of pcap_reader.cpp
      does not end; cut so early that the header is lost, it does. */
  lemma HangingInput(h: FileHeader, records: seq<RawRecord>, data: seq<byte>)
    requires Supported(h) && Writable(records) && data <= EncodeFile(h, records)
    ensures Usable(SAMPLE)
    ensures Hangs(Xz(Unclosed(data)), SAMPLE, RunLengthEncoding(false)) <==> |data| >= FILE_HEADER_SIZE
  {
    hide Usable, Lawful, Latching, Deliver, RunLength, RunLengthEncoding, HeaderAccepted, Unclosed, DecodesFiles,
      Recognises, ContentOf, EncodeFile;
    CutInput(data);
    CutNeverDecodes(data);
    HeaderOfStart(h, records, data);
  }

  lemma CutNeverDecodes(data: seq<byte>)
    ensures !exists o :: RunLengthEncoding(false)(SAMPLE.lzma.start, Unclosed(data), o)
  {
    hide Lawful, Latching, Deliver, RunLengthEncoding, Unclosed, DecodesFiles, Recognises, Encodes;
    SampleIsLawful(false);
    CutInput(data);
    SampleDecodesFiles();
    SampleRecognises();
    CleanEndIff(SAMPLE.lzma, RunLengthEncoding(false), Unclosed(data));
  }

  // ----- a member cut inside a pair -----

  /** Calls that go on until the decoder stops or has consumed everything. */
  ghost predicate Exhaust(mem: Memory, bytes: seq<byte>, offers: seq<Offer>) {
    && Legal(RunLength(true), mem, bytes, offers) && (forall f <- offers :: !f.finish)
    && var r := Result(RunLength(true), mem, bytes, offers);
       r.code == Ok ==> r.left == []
  }

  ghost function AllOut(mem: Memory, bytes: seq<byte>, offers: seq<Offer>): seq<byte>
    requires Exhaust(mem, bytes, offers)
  {
    var r := Result(RunLength(true), mem, bytes, offers);
    r.out + r.failed
  }

  /** The start of a pair at the end of the input hands out nothing. */
  lemma TailRun(tail: seq<byte>, offers: seq<Offer>)
    requires tail == [1] || (|tail| == 2 && tail[0] == 1)
    requires Exhaust([], tail, offers)
    ensures AllOut([], tail, offers) == []
  {
    hide Legal, Result, AllOut, Exhaust, RunLength;
    var l := OneCall([], tail, offers);
    if |tail| == 2 {
      assert tail[1..][1..] == [];
      var k := OneCall([1], tail[1..], l);
      NoCall([1, tail[1] as int], k);
    } else {
      assert tail[1..] == [];
      NoCall([1], l);
    }
  }

  lemma NoCall(mem: Memory, offers: seq<Offer>)
    requires Exhaust(mem, [], offers)
    ensures AllOut(mem, [], offers) == []
  {
  }

  /** A pair with something behind it hands out its byte. */
  lemma PairRun(b: byte, more: seq<byte>, offers: seq<Offer>) returns (later: seq<Offer>)
    requires more != [] && Exhaust([], [1, b] + more, offers)
    ensures |later| < |offers| && Exhaust([], more, later)
    ensures AllOut([], [1, b] + more, offers) == [b] + AllOut([], more, later)
  {
    hide Legal, Result, AllOut, Exhaust, RunLength;
    later := OneCall([], [1, b] + more, offers);
    assert ([1, b] + more)[1..] == [b] + more && ([b] + more)[1..] == more;
    later := OneCall([1], [b] + more, later);
    later := OneCall([1, b as int], more, later);
  }

  /** Whatever the calls are, the whole pairs are handed out and the cut one is not. */
  lemma {:induction false} UnclosedRun(data: seq<byte>, tail: seq<byte>, offers: seq<Offer>)
    requires tail == [1] || (|tail| == 2 && tail[0] == 1)
    requires Exhaust([], Unclosed(data) + tail, offers)
    ensures AllOut([], Unclosed(data) + tail, offers) == data
    decreases |data|
  {
    hide Exhaust, AllOut;
    if data == [] {
      assert Unclosed(data) + tail == tail;
      TailRun(tail, offers);
    } else {
      assert Unclosed(data) + tail == [1, data[0]] + (Unclosed(data[1..]) + tail);
      var later := PairRun(data[0], Unclosed(data[1..]) + tail, offers);
      UnclosedRun(data[1..], tail, later);
      assert data == [data[0]] + data[1..];
    }
  }

  /** What the first of some calls does in the middle of a pair. */
  lemma OneCall(mem: Memory, bytes: seq<byte>, offers: seq<Offer>) returns (later: seq<Offer>)
    requires Exhaust(mem, bytes, offers) && bytes != []
    requires (mem == [] && bytes[0] == 1) || mem == [1] || (|mem| == 2 && mem[0] == 1 && 0 <= mem[1] < 256)
    ensures |later| < |offers|
    ensures var next: Memory := if mem == [] then [1] else if mem == [1] then [1, bytes[0] as int] else [];
      var out: seq<byte> := if |mem| == 2 then [mem[1]] else [];
      var left := if |mem| == 2 then bytes else bytes[1..];
      Exhaust(next, left, later) && AllOut(mem, bytes, offers) == out + AllOut(next, left, later)
  {
    later := offers[1..];
    var o := offers[0];
    var s := RunLength(true).step(mem, bytes[..o.take], o.room, false);
    assert s == RunLengthStep(true, mem, bytes[..o.take], o.room, false);
    assert bytes[0..] == bytes;
    var r := Result(RunLength(true), s.mem, bytes[s.consumed..], later);
    Associative(s.produced, r.out, r.failed);
  }

  /** A gzip file cut inside a pair delivers all that comes before it. */
  lemma CutMemberInput(data: seq<byte>, b: byte)
    ensures Usable(SAMPLE)
    ensures ContentOf(GZip(Unclosed(data) + [1]), SAMPLE) == Content(data, false)
    ensures ContentOf(GZip(Unclosed(data) + [1, b]), SAMPLE) == Content(data, false)
  {
    hide Lawful, Latching, Inflated, Unclosed, Legal, Result;
    SampleIsLawful(true);
    SampleIsLawful(false);
    var d, s1, s2 := RunLength(true), Unclosed(data) + [1], Unclosed(data) + [1, b];
    var o1 := GZipRefill.AllHandedOut(d, s1);
    UnclosedRun(data, [1], o1);
    var o2 := GZipRefill.AllHandedOut(d, s2);
    UnclosedRun(data, [1, b], o2);
  }

  /** A gzip file at whose end the memcpy in underflow overlaps: its member decodes to 4093 bytes. */
  lemma OverlapInput(b: byte, tail: seq<byte>)
    ensures var d := RunLength(true);
      && Lawful(d) && Latching(d)
      && Inflated(d, GZipRefill.Start(d, Compress(Copies(4093, b)) + tail)) == Copies(4093, b)
      && |Copies(4093, b)| == 4093 && ShortLastRefill(4093)
  {
    hide Inflated, DecodesMembers;
    var d, e, data := RunLength(true), RunLengthEncoding(true), Copies(4093, b);
    SampleIsLawful(true);
    SampleDecodesMembers();
    CompressEncodes(true, data);
    assert e(d.start, Compress(data), data);
    MemberDelivered(d, e, Compress(data), data, tail);
  }
}
