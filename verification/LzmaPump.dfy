/** LZMADecompressStreamBuffer::underflow on values, and what its successive calls deliver. */
module LzmaPump {
  import opened Bytes
  import opened Decoders
  import opened DecoderRuns
  import opened ReadAheads

  /** The decompressor between two calls of lzma_code. */
  datatype Decoding = Decoding(mem: Memory, avail: seq<byte>, rest: seq<byte>, inputDone: bool, outputDone: bool)

  function Start(d: Decoder, bytes: seq<byte>): Decoding {
    Decoding(d.start, [], bytes, false, false)
  }

  function Left(x: Decoding): nat {
    |x.avail| + |x.rest|
  }

  /** inputDone_ is set by a short read, after which nothing is left to read. */
  predicate Consistent(x: Decoding) {
    x.inputDone ==> x.rest == []
  }

  /** The read at the top of the loop; a short read sets eof. */
  function Feed(x: Decoding): Decoding {
    if x.avail != [] || x.inputDone then x
    else
      var k := Min(BUFFER_SIZE, |x.rest|);
      x.(avail := x.rest[..k], rest := Skip(x.rest, k), inputDone := |x.rest| < BUFFER_SIZE)
  }

  lemma FeedKeeps(x: Decoding)
    requires Consistent(x)
    ensures var y := Feed(x);
      && Consistent(y) && y.avail + y.rest == x.avail + x.rest && Left(y) == Left(x)
      && y.mem == x.mem && y.outputDone == x.outputDone
      && (x.inputDone ==> y == x) && (y.avail == [] ==> y.inputDone)
  {
  }

  /** What one turn of the loop yields: new state and output, or an exception. */
  datatype Turn = Turn(next: Decoding, out: seq<byte>, threw: bool)

  function RunCoder(d: Decoder, y: Decoding): Turn
    requires Lawful(d)
  {
    var s := d.step(y.mem, y.avail, BUFFER_SIZE, y.inputDone);
    var next := y.(mem := s.mem, avail := Skip(y.avail, s.consumed), outputDone := y.outputDone || s.code == End);
    if s.code == Fail then Turn(next.(outputDone := y.outputDone), [], true) else Turn(next, s.produced, false)
  }

  lemma RunCoderBounds(d: Decoder, y: Decoding)
    requires Lawful(d) && Consistent(y)
    ensures var t := RunCoder(d, y);
      && Consistent(t.next) && |t.out| <= BUFFER_SIZE && Left(t.next) <= Left(y)
      && t.next.inputDone == y.inputDone && (t.threw ==> t.out == [])
      && (!t.threw && Left(t.next) == Left(y) ==> d.rank(t.next.mem) <= d.rank(y.mem))
      && (!t.threw && Left(t.next) == Left(y) && (t.out != [] || !t.next.outputDone) ==>
            d.rank(t.next.mem) < d.rank(y.mem))
  {
  }

  lemma CoderIs(d: Decoder, y: Decoding, s: Step)
    requires Lawful(d) && Consistent(y) && s == d.step(y.mem, y.avail, BUFFER_SIZE, y.inputDone)
    ensures s.consumed <= |y.avail| && |s.produced| <= BUFFER_SIZE
    ensures RunCoder(d, y).threw <==> s.code == Fail
    ensures s.code != Fail ==>
              var left, done := Skip(y.avail, s.consumed), y.outputDone || s.code == End;
              RunCoder(d, y) == Turn(Decoding(s.mem, left, y.rest, y.inputDone, done), s.produced, false)
  {
  }

  /** underflow on an empty get area: turns until there is output, the end, or an exception. The measure is unread
      input, then whether the end of the input was seen, then the work the decoder can still do without input. */
  function Pump(d: Decoder, x: Decoding): (t: Turn)
    requires Lawful(d) && Consistent(x)
    ensures Consistent(t.next) && |t.out| <= BUFFER_SIZE && Left(t.next) <= Left(x)
    ensures t.threw ==> t.out == []
    ensures !t.threw && t.out == [] ==> t.next.outputDone
    ensures Left(t.next) == Left(x) && t.out != [] ==> d.rank(t.next.mem) < d.rank(x.mem)
    decreases Left(x), !x.inputDone, d.rank(x.mem)
  {
    if x.outputDone then Turn(x, [], false)
    else
      FeedKeeps(x);
      RunCoderBounds(d, Feed(x));
      var t := RunCoder(d, Feed(x));
      if t.threw || t.out != [] || t.next.outputDone then t else Pump(d, t.next)
  }

  lemma PumpStep(d: Decoder, x: Decoding)
    requires Lawful(d) && Consistent(x) && !x.outputDone
    ensures var t := RunCoder(d, Feed(x));
      && Pump(d, x) == (if t.threw || t.out != [] || t.next.outputDone then t else Pump(d, t.next))
      && Left(t.next) <= Left(x) && (x.inputDone ==> t.next.inputDone)
      && (!t.threw && Left(t.next) == Left(x) ==> d.rank(t.next.mem) <= d.rank(x.mem))
      && (!t.threw && !t.next.outputDone && Left(t.next) == Left(x) ==> d.rank(t.next.mem) < d.rank(x.mem))
  {
    hide Lawful;
    FeedKeeps(x);
    RunCoderBounds(d, Feed(x));
  }

  /** All bytes delivered from here on, and whether the end is an exception rather than end of file. */
  datatype Delivery = Delivery(bytes: seq<byte>, threw: bool)

  function Deliver(d: Decoder, x: Decoding): Delivery
    requires Lawful(d) && Consistent(x)
    decreases Left(x), d.rank(x.mem)
  {
    var t := Pump(d, x);
    if t.out == [] then Delivery([], t.threw)
    else
      var more := Deliver(d, t.next);
      Delivery(t.out + more.bytes, more.threw)
  }

  // ----- well-formed input -----

  /** The input at hand falls short of the compressed bytes r by `missing` bytes. */
  ghost predicate Awaits(x: Decoding, r: seq<byte>, missing: nat) {
    Consistent(x) && x.avail + x.rest <= r && |r| == Left(x) + missing
  }

  /** One turn on (a prefix of) a well-formed file. */
  lemma TurnDecodes(d: Decoder, encodes: Encoding, x: Decoding, r: seq<byte>, o: seq<byte>, missing: nat)
    requires Lawful(d) && DecodesFiles(d, encodes)
    requires encodes(x.mem, r, o) && Awaits(x, r, missing) && !x.outputDone
    ensures var t := RunCoder(d, Feed(x));
      var n := Left(x) - Left(t.next);
      && t.out <= o && n <= |r| && (t.threw ==> missing > 0)
      && (!t.threw && !t.next.outputDone ==>
            encodes(t.next.mem, r[n..], o[|t.out|..]) && Awaits(t.next, r[n..], missing))
      && (!t.threw && t.next.outputDone && missing == 0 ==> t.out == o)
  {
    FeedKeeps(x);
    var y := Feed(x);
    var s := d.step(y.mem, y.avail, BUFFER_SIZE, y.inputDone);
    assert y.avail <= r;
    assert (y.avail + y.rest)[s.consumed..] == y.avail[s.consumed..] + y.rest;
  }

  lemma {:induction false} PumpDecodes(d: Decoder, encodes: Encoding, x: Decoding, r: seq<byte>, o: seq<byte>,
                                       missing: nat) returns (r': seq<byte>)
    requires Lawful(d) && DecodesFiles(d, encodes)
    requires encodes(x.mem, r, o) && Awaits(x, r, missing) && !x.outputDone
    ensures var t := Pump(d, x);
      && t.out <= o && (t.threw ==> missing > 0)
      && (!t.threw && !t.next.outputDone ==> encodes(t.next.mem, r', o[|t.out|..]) && Awaits(t.next, r', missing))
      && (!t.threw && t.next.outputDone && missing == 0 ==> t.out == o)
    decreases Left(x), !x.inputDone, d.rank(x.mem)
  {
    hide Lawful, DecodesFiles, RunCoder, Feed;
    TurnDecodes(d, encodes, x, r, o, missing);
    PumpStep(d, x);
    var t := RunCoder(d, Feed(x));
    r' := r[Left(x) - Left(t.next)..];
    if !t.threw && t.out == [] && !t.next.outputDone {
      assert o[0..] == o;
      r' := PumpDecodes(d, encodes, t.next, r', o, missing);
    }
  }

  /** What is delivered from a well-formed file, or from a prefix of one, is (a prefix of) its decoded bytes; a whole
      file does not throw. */
  lemma {:induction false} DeliverDecodes(d: Decoder, encodes: Encoding, x: Decoding, r: seq<byte>, o: seq<byte>,
                                          missing: nat)
    requires Lawful(d) && DecodesFiles(d, encodes)
    requires encodes(x.mem, r, o) && Awaits(x, r, missing) && !x.outputDone
    ensures Deliver(d, x).bytes <= o
    ensures missing == 0 ==> Deliver(d, x) == Delivery(o, false)
    decreases Left(x), d.rank(x.mem)
  {
    hide Lawful, DecodesFiles, Pump;
    var r' := PumpDecodes(d, encodes, x, r, o, missing);
    var t := Pump(d, x);
    if t.out != [] {
      if t.next.outputDone {
        DoneDeliversNothing(d, t.next);
      } else {
        DeliverDecodes(d, encodes, t.next, r', o[|t.out|..], missing);
      }
    }
  }

  lemma DoneDeliversNothing(d: Decoder, x: Decoding)
    requires Lawful(d) && Consistent(x) && x.outputDone
    ensures Deliver(d, x) == Delivery([], false)
  {
  }

  /** Main result: a well-formed xz file delivers exactly its decoded bytes, then a clean end. */
  lemma FileDelivered(d: Decoder, encodes: Encoding, file: seq<byte>, decoded: seq<byte>)
    requires Lawful(d) && DecodesFiles(d, encodes) && encodes(d.start, file, decoded)
    ensures Deliver(d, Start(d, file)) == Delivery(decoded, false)
  {
    hide Lawful, DecodesFiles, Deliver;
    assert [] + file == file;
    DeliverDecodes(d, encodes, Start(d, file), file, decoded, 0);
  }

  // ----- any input -----

  /** A turn that neither throws nor ends leaves a state whose completions are completions of the old one; a turn that
      ends has seen a whole file. */
  lemma TurnRecognises(d: Decoder, encodes: Encoding, x: Decoding)
    requires Lawful(d) && Recognises(d, encodes) && Consistent(x) && !x.outputDone
    ensures var t := RunCoder(d, Feed(x));
      && (!t.threw && t.next.outputDone ==> encodes(x.mem, x.avail + x.rest, t.out))
      && (!t.threw && !t.next.outputDone ==>
            forall o {:trigger encodes(t.next.mem, t.next.avail + t.next.rest, o)} ::
              encodes(t.next.mem, t.next.avail + t.next.rest, o) ==> encodes(x.mem, x.avail + x.rest, t.out + o))
  {
    hide Feed;
    FeedKeeps(x);
    var y := Feed(x);
    var s := d.step(y.mem, y.avail, BUFFER_SIZE, y.inputDone);
    assert Accepts(d, encodes, y.mem, y.avail, BUFFER_SIZE, y.inputDone);
    if s.code == Ok {
      var left := y.avail[s.consumed..] + y.rest;
      assert y.avail[..s.consumed] + left == x.avail + x.rest;
    } else if s.code == End {
      assert y.avail == x.avail + x.rest;
    }
  }

  lemma {:induction false} PumpRecognises(d: Decoder, encodes: Encoding, x: Decoding)
    requires Lawful(d) && Recognises(d, encodes) && Consistent(x) && !x.outputDone
    ensures var t := Pump(d, x);
      && (!t.threw && t.next.outputDone ==> encodes(x.mem, x.avail + x.rest, t.out))
      && (!t.threw && !t.next.outputDone ==>
            forall o {:trigger encodes(t.next.mem, t.next.avail + t.next.rest, o)} ::
              encodes(t.next.mem, t.next.avail + t.next.rest, o) ==> encodes(x.mem, x.avail + x.rest, t.out + o))
    decreases Left(x), !x.inputDone, d.rank(x.mem)
  {
    hide Lawful, Recognises, RunCoder, Feed;
    FeedKeeps(x);
    PumpStep(d, x);
    TurnRecognises(d, encodes, x);
    var t := RunCoder(d, Feed(x));
    if !t.threw && t.out == [] && !t.next.outputDone {
      assert Consistent(t.next) by { TurnConsistent(d, x); }
      PumpRecognises(d, encodes, t.next);
      var u := Pump(d, t.next);
      NothingAhead(u.out);
      forall o | encodes(u.next.mem, u.next.avail + u.next.rest, o) && !u.threw && !u.next.outputDone
        ensures encodes(x.mem, x.avail + x.rest, u.out + o)
      {
        NothingAhead(u.out + o);
        assert encodes(t.next.mem, t.next.avail + t.next.rest, u.out + o);
      }
    }
  }

  lemma TurnConsistent(d: Decoder, x: Decoding)
    requires Lawful(d) && Consistent(x)
    ensures Consistent(RunCoder(d, Feed(x)).next)
  {
    hide Lawful;
    FeedKeeps(x);
    RunCoderBounds(d, Feed(x));
  }

  lemma {:induction false} CleanEndDecodes(d: Decoder, encodes: Encoding, x: Decoding)
    requires Lawful(d) && Recognises(d, encodes) && Consistent(x) && !x.outputDone && !Deliver(d, x).threw
    ensures encodes(x.mem, x.avail + x.rest, Deliver(d, x).bytes)
    decreases Left(x), d.rank(x.mem)
  {
    hide Lawful, Recognises, Pump;
    PumpRecognises(d, encodes, x);
    var t := Pump(d, x);
    if t.out != [] {
      if t.next.outputDone {
        DoneDeliversNothing(d, t.next);
        assert t.out + [] == t.out;
      } else {
        CleanEndDecodes(d, encodes, t.next);
      }
    }
  }

  /** Main result, for any bytes: reading ends cleanly exactly on a well-formed file. */
  lemma CleanEndIff(d: Decoder, encodes: Encoding, bytes: seq<byte>)
    requires Lawful(d) && DecodesFiles(d, encodes) && Recognises(d, encodes)
    ensures !Deliver(d, Start(d, bytes)).threw <==> exists o :: encodes(d.start, bytes, o)
    ensures forall o :: encodes(d.start, bytes, o) ==> Deliver(d, Start(d, bytes)).bytes == o
  {
    hide Lawful, DecodesFiles, Recognises, Deliver;
    NothingAhead(bytes);
    if !Deliver(d, Start(d, bytes)).threw {
      CleanEndDecodes(d, encodes, Start(d, bytes));
    }
    forall o | encodes(d.start, bytes, o)
      ensures Deliver(d, Start(d, bytes)) == Delivery(o, false)
    {
      FileDelivered(d, encodes, bytes, o);
    }
  }

  // ----- any input: all that the decoder hands out is delivered -----

  /** These calls, each with room for 4096 bytes, hand out `out` until the decoder ends, or fails if `threw`. */
  ghost predicate HandsOut(d: Decoder, mem: Memory, bytes: seq<byte>, offers: seq<Offer>, out: seq<byte>, threw: bool) {
    && Legal(d, mem, bytes, offers) && (forall f <- offers :: f.room == 4096)
    && var r := Result(d, mem, bytes, offers);
       out == r.out && r.code == if threw then Fail else End
  }

  function Input(x: Decoding): seq<byte> {
    x.avail + x.rest
  }

  /** A turn of the loop is one call. */
  lemma TurnRuns(d: Decoder, x: Decoding, later: seq<Offer>, more: seq<byte>, threw: bool) returns (offers: seq<Offer>)
    requires Lawful(d) && Consistent(x) && !x.outputDone
    requires var t := RunCoder(d, Feed(x));
      if t.threw then threw && more == []
      else if t.next.outputDone then !threw && more == []
      else HandsOut(d, t.next.mem, Input(t.next), later, more, threw)
    ensures HandsOut(d, x.mem, Input(x), offers, RunCoder(d, Feed(x)).out + more, threw)
  {
    hide Feed, Legal, Result;
    FeedKeeps(x);
    var y := Feed(x);
    var bytes, o := Input(x), Offer(|y.avail|, BUFFER_SIZE, y.inputDone);
    assert bytes[..o.take] == y.avail;
    StepInBounds(d, x.mem, y.avail, BUFFER_SIZE, y.inputDone);
    var s := d.step(x.mem, y.avail, BUFFER_SIZE, y.inputDone);
    assert bytes[s.consumed..] == Skip(y.avail, s.consumed) + y.rest;
    FirstCall(d, x.mem, bytes, o, later);
    if s.code == Ok {
      offers := [o] + later;
    } else {
      offers := [o];
      EndsWithNothing(d, x.mem, bytes, o);
      assert s.produced + [] == s.produced;
    }
  }

  lemma EndsWithNothing(d: Decoder, mem: Memory, bytes: seq<byte>, o: Offer)
    requires Legal(d, mem, bytes, [o])
    ensures Result(d, mem, bytes, [o]).code == End ==> Result(d, mem, bytes, [o]).failed == []
  {
  }

  lemma {:induction false} PumpRuns(d: Decoder, x: Decoding, later: seq<Offer>, more: seq<byte>, threw: bool)
    returns (offers: seq<Offer>)
    requires Lawful(d) && Consistent(x) && !x.outputDone
    requires var t := Pump(d, x);
      if t.threw then threw && more == []
      else if t.next.outputDone then !threw && more == []
      else HandsOut(d, t.next.mem, Input(t.next), later, more, threw)
    ensures HandsOut(d, x.mem, Input(x), offers, Pump(d, x).out + more, threw)
    decreases Left(x), !x.inputDone, d.rank(x.mem)
  {
    hide Lawful, RunCoder, Feed, HandsOut;
    PumpStep(d, x);
    TurnConsistent(d, x);
    var t := RunCoder(d, Feed(x));
    if t.threw || t.out != [] || t.next.outputDone {
      offers := TurnRuns(d, x, later, more, threw);
    } else {
      var tail := PumpRuns(d, t.next, later, more, threw);
      var u := Pump(d, t.next);
      offers := TurnRuns(d, x, tail, u.out + more, threw);
      assert [] + (u.out + more) == u.out + more;
    }
  }

  lemma {:induction false} DeliverRuns(d: Decoder, x: Decoding) returns (offers: seq<Offer>)
    requires Lawful(d) && Consistent(x) && !x.outputDone
    ensures HandsOut(d, x.mem, Input(x), offers, Deliver(d, x).bytes, Deliver(d, x).threw)
    decreases Left(x), d.rank(x.mem)
  {
    hide Lawful, Pump, HandsOut;
    var t := Pump(d, x);
    assert t.out + [] == t.out;
    if t.out == [] {
      offers := PumpRuns(d, x, [], [], t.threw);
    } else if t.next.outputDone {
      DoneDeliversNothing(d, t.next);
      offers := PumpRuns(d, x, [], [], false);
    } else {
      var later := DeliverRuns(d, t.next);
      offers := PumpRuns(d, x, later, Deliver(d, t.next).bytes, Deliver(d, t.next).threw);
    }
  }

  /** Main result, for any bytes: what is delivered is what some sequence of decoder calls hands out that shows the
      decoder the bytes in order, says finish only when all are shown, and goes on until it ends or fails; an exception
      is a failure. */
  lemma AllHandedOut(d: Decoder, bytes: seq<byte>) returns (offers: seq<Offer>)
    requires Lawful(d)
    ensures var e := Deliver(d, Start(d, bytes)); HandsOut(d, d.start, bytes, offers, e.bytes, e.threw)
  {
    hide Lawful, Deliver, HandsOut;
    NothingAhead(bytes);
    offers := DeliverRuns(d, Start(d, bytes));
  }

  /** A file cut short delivers a start of its bytes, and then throws exactly if what is left of it is not a file. */
  lemma CutFileDelivered(d: Decoder, encodes: Encoding, file: seq<byte>, decoded: seq<byte>, cut: nat)
    requires Lawful(d) && DecodesFiles(d, encodes) && Recognises(d, encodes)
    requires encodes(d.start, file, decoded) && cut <= |file|
    ensures Deliver(d, Start(d, file[..cut])).bytes <= decoded
    ensures Deliver(d, Start(d, file[..cut])).threw <==> !exists o :: encodes(d.start, file[..cut], o)
  {
    hide Lawful, DecodesFiles, Recognises, Deliver;
    NothingAhead(file[..cut]);
    DeliverDecodes(d, encodes, Start(d, file[..cut]), file, decoded, |file| - cut);
    CleanEndIff(d, encodes, file[..cut]);
  }

  /** Two streams in one file deliver the bytes of both; cut between them, the file ends cleanly after the first. */
  lemma StreamsDelivered(d: Decoder, encodes: Encoding, s1: seq<byte>, o1: seq<byte>, s2: seq<byte>, o2: seq<byte>)
    requires Lawful(d) && DecodesFiles(d, encodes) && Concatenates(d, encodes)
    requires encodes(d.start, s1, o1) && encodes(d.start, s2, o2)
    ensures Deliver(d, Start(d, s1 + s2)) == Delivery(o1 + o2, false)
    ensures Deliver(d, Start(d, (s1 + s2)[..|s1|])) == Delivery(o1, false)
  {
    hide Lawful, DecodesFiles, Deliver;
    assert (s1 + s2)[..|s1|] == s1;
    FileDelivered(d, encodes, s1, o1);
    FileDelivered(d, encodes, s1 + s2, o1 + o2);
  }
}
