/** GZipDecompressStreamBuffer::unzipFromStream on values, and what its successive refills deliver. */
module GZipRefill {
  import opened Bytes
  import opened Decoders
  import opened DecoderRuns
  import opened ReadAheads

  const PUTBACK: nat := 4
  const REFILL: nat := BUFFER_SIZE - PUTBACK

  /** The decompressor between two calls: decoder state, last return value, input read ahead, input unread. */
  datatype Inflating = Inflating(mem: Memory, code: Code, avail: seq<byte>, rest: seq<byte>)

  function Start(d: Decoder, bytes: seq<byte>): Inflating {
    Inflating(d.start, Ok, [], bytes)
  }

  function Left(z: Inflating): nat {
    |z.avail| + |z.rest|
  }

  /** fillInputBuffer, when there is no input left. */
  function Fill(z: Inflating): Inflating {
    if z.avail != [] then z
    else
      var k := Min(BUFFER_SIZE, |z.rest|);
      z.(avail := z.rest[..k], rest := Skip(z.rest, k))
  }

  function Inflate(d: Decoder, y: Inflating, room: nat): (r: (Inflating, seq<byte>))
    requires Lawful(d) && room > 0
    ensures |r.1| <= room
    ensures Left(r.0) <= Left(y)
    ensures Left(r.0) == Left(y) ==> d.rank(r.0.mem) <= d.rank(y.mem)
    ensures Left(r.0) == Left(y) && (r.0.code == Ok || r.1 != []) ==> d.rank(r.0.mem) < d.rank(y.mem)
  {
    var s := d.step(y.mem, y.avail, room, false);
    (Inflating(s.mem, s.code, Skip(y.avail, s.consumed), y.rest), s.produced)
  }

  /** One round of the do/while loop: read ahead if there is no input left, then decode if there is some. */
  function Round(d: Decoder, z: Inflating, room: nat): (r: (Inflating, seq<byte>))
    requires Lawful(d) && room > 0
    ensures |r.1| <= room
    ensures Left(r.0) <= Left(z)
    ensures Left(r.0) == Left(z) ==> d.rank(r.0.mem) <= d.rank(z.mem)
    ensures Left(r.0) == Left(z) && ((Left(z) > 0 && r.0.code == Ok) || r.1 != []) ==> d.rank(r.0.mem) < d.rank(z.mem)
    ensures Left(z) == 0 ==> r.1 == [] && Left(r.0) == 0
  {
    var y := Fill(z);
    if y.avail == [] then (y, []) else Inflate(d, y, room)
  }

  /** The do/while loop: until the room is full, the decoder stops, or no input is left. */
  function Loop(d: Decoder, z: Inflating, room: nat): (r: (Inflating, seq<byte>))
    requires Lawful(d) && room > 0
    ensures |r.1| <= room
    ensures Left(r.0) <= Left(z)
    ensures Left(r.0) == Left(z) ==> d.rank(r.0.mem) <= d.rank(z.mem)
    ensures Left(r.0) == Left(z) && r.1 != [] ==> d.rank(r.0.mem) < d.rank(z.mem)
    ensures r.0.code == Ok && |r.1| < room ==> Left(r.0) == 0
    decreases Left(z), d.rank(z.mem)
  {
    var (x, out) := Round(d, z, room);
    if x.code == Ok && |out| < room && Left(z) > 0 then
      var (w, more) := Loop(d, x, room - |out|);
      (w, out + more)
    else (x, out)
  }

  /** The loop, having delivered `done` and standing at z with `room` left, will end in `whole`. */
  ghost predicate Halfway(d: Decoder, z: Inflating, room: nat, done: seq<byte>, whole: (Inflating, seq<byte>))
    requires Lawful(d)
  {
    room > 0 && whole == (Loop(d, z, room).0, done + Loop(d, z, room).1)
  }

  lemma WholeIsHalfway(d: Decoder, z: Inflating, room: nat)
    requires Lawful(d) && room > 0
    ensures Halfway(d, z, room, [], Loop(d, z, room))
  {
    assert [] + Loop(d, z, room).1 == Loop(d, z, room).1;
  }

  lemma LoopStep(d: Decoder, z: Inflating, room: nat, done: seq<byte>, whole: (Inflating, seq<byte>))
    requires Lawful(d) && Halfway(d, z, room, done, whole)
    ensures var (x, out) := Round(d, z, room);
      if x.code == Ok && |out| < room && Left(z) > 0 then Halfway(d, x, room - |out|, done + out, whole)
      else whole == (x, done + out)
  {
    hide Lawful, Round;
    var (x, out) := Round(d, z, room);
    if x.code == Ok && |out| < room && Left(z) > 0 {
      assert done + (out + Loop(d, x, room - |out|).1) == (done + out) + Loop(d, x, room - |out|).1;
    }
  }

  /** At the end of a member the unconsumed input goes back to the stream. */
  function Rewind(z: Inflating): Inflating {
    if z.code == End then z.(avail := [], rest := z.avail + z.rest) else z
  }

  function Unzip(d: Decoder, z: Inflating, room: nat): (r: (Inflating, seq<byte>))
    requires Lawful(d) && room > 0
    ensures |r.1| <= room
    ensures Left(r.0) <= Left(z)
    ensures Left(r.0) == Left(z) && r.1 != [] ==> d.rank(r.0.mem) < d.rank(z.mem)
    ensures r.0.code == Ok && |r.1| < room ==> Left(r.0) == 0
  {
    var (w, out) := Loop(d, z, room);
    (Rewind(w), out)
  }

  /** The get areas exposed by successive calls of underflow, up to the first that reports end of file. */
  function Refills(d: Decoder, z: Inflating): seq<seq<byte>>
    requires Lawful(d)
    decreases Left(z), d.rank(z.mem)
  {
    var (w, out) := Unzip(d, z, REFILL);
    if out == [] then [] else [out] + Refills(d, w)
  }

  function Concat(parts: seq<seq<byte>>): seq<byte> {
    if parts == [] then [] else parts[0] + Concat(parts[1..])
  }

  /** Everything the stream still delivers. */
  function Inflated(d: Decoder, z: Inflating): seq<byte>
    requires Lawful(d)
  {
    Concat(Refills(d, z))
  }

  lemma InflatedStep(d: Decoder, z: Inflating)
    requires Lawful(d)
    ensures var (w, out) := Unzip(d, z, REFILL);
      Inflated(d, z) == if out == [] then [] else out + Inflated(d, w)
  {
    hide Unzip, Lawful;
    var (w, out) := Unzip(d, z, REFILL);
    if out != [] {
      assert Refills(d, z)[1..] == Refills(d, w);
    }
  }

  // ----- an exhausted decoder stays exhausted -----

  /** After a return value other than Z_OK the decoder repeats it. */
  ghost predicate Settled(d: Decoder, z: Inflating) {
    z.code != Ok ==> Latched(d, z.mem, z.code)
  }

  lemma RoundSettled(d: Decoder, z: Inflating, room: nat)
    requires Lawful(d) && Latching(d) && Settled(d, z) && room > 0
    ensures Settled(d, Round(d, z, room).0)
    ensures z.code != Ok ==> Round(d, z, room).1 == [] && Round(d, z, room).0.code == z.code
  {
    hide Lawful;
  }

  lemma {:induction false} LoopSettled(d: Decoder, z: Inflating, room: nat)
    requires Lawful(d) && Latching(d) && Settled(d, z) && room > 0
    ensures Settled(d, Loop(d, z, room).0)
    ensures z.code != Ok ==> Loop(d, z, room).1 == []
    decreases Left(z), d.rank(z.mem)
  {
    hide Lawful, Latching, Settled, Round;
    RoundSettled(d, z, room);
    var (x, out) := Round(d, z, room);
    if x.code == Ok && |out| < room && Left(z) > 0 {
      LoopSettled(d, x, room - |out|);
    }
  }

  lemma UnzipSettled(d: Decoder, z: Inflating, room: nat)
    requires Lawful(d) && Latching(d) && Settled(d, z) && room > 0
    ensures Settled(d, Unzip(d, z, room).0)
    ensures z.code != Ok ==> Unzip(d, z, room).1 == []
  {
    LoopSettled(d, z, room);
  }

  /** After a short refill there is none. */
  lemma ShortRefillIsLast(d: Decoder, z: Inflating)
    requires Lawful(d) && Latching(d) && Settled(d, z)
    requires |Unzip(d, z, REFILL).1| < REFILL
    ensures Refills(d, Unzip(d, z, REFILL).0) == []
  {
    hide Lawful, Unzip;
    var w := Unzip(d, z, REFILL).0;
    UnzipSettled(d, z, REFILL);
    if w.code == Ok {
      NoInputNoOutput(d, w);
    } else {
      UnzipSettled(d, w, REFILL);
    }
  }

  lemma NoInputNoOutput(d: Decoder, z: Inflating)
    requires Lawful(d) && Left(z) == 0
    ensures Unzip(d, z, REFILL).1 == []
  {
  }

  /** Main result: on any bytes whatever, every refill but the last has 4092 bytes. */
  lemma {:induction false} FullRefills(d: Decoder, z: Inflating)
    requires Lawful(d) && Latching(d) && Settled(d, z)
    ensures forall i :: 0 <= i < |Refills(d, z)| ==> 0 < |Refills(d, z)[i]| <= 4092
    ensures forall i :: 0 <= i < |Refills(d, z)| - 1 ==> |Refills(d, z)[i]| == 4092
    decreases Left(z), d.rank(z.mem)
  {
    hide Lawful, Unzip;
    var (w, out) := Unzip(d, z, REFILL);
    if out != [] {
      UnzipSettled(d, z, REFILL);
      FullRefills(d, w);
      if |out| < REFILL {
        ShortRefillIsLast(d, z);
      }
    }
  }

  // ----- well-formed input -----

  lemma PrefixesCompare<T>(a: seq<T>, b: seq<T>, whole: seq<T>)
    requires a <= whole && b <= whole
    ensures Comparable(a, b)
  {
  }

  /** How far the input at hand falls short of the member r and the bytes behind it. */
  ghost predicate Awaits(z: Inflating, r: seq<byte>, tail: seq<byte>, missing: nat) {
    z.avail + z.rest <= r + tail && |r| + |tail| == Left(z) + missing
  }

  /** What a call or a round may do to a member r that decodes to o: consume and deliver a start of it, all of both when
      it ends. */
  ghost predicate Progress(encodes: Encoding, left: nat, x: Inflating, out: seq<byte>, r: seq<byte>, o: seq<byte>,
                           tail: seq<byte>, missing: nat) {
    var n := left - Left(x);
    && x.code != Fail && out <= o && 0 <= n <= |r|
    && (x.code == Ok ==> n < |r| && encodes(x.mem, r[n..], o[|out|..]) && Awaits(x, r[n..], tail, missing))
    && (x.code == End ==> out == o && n == |r| && x.avail + x.rest <= tail && |tail| == Left(x) + missing)
  }

  /** One inflate call on (a prefix of) a member and what follows it. */
  lemma InflateDecodes(d: Decoder, encodes: Encoding, y: Inflating, room: nat, r: seq<byte>, o: seq<byte>,
                       tail: seq<byte>, missing: nat)
    requires Lawful(d) && DecodesMembers(d, encodes) && room > 0
    requires encodes(y.mem, r, o) && Awaits(y, r, tail, missing) && y.avail != []
    ensures var (x, out) := Inflate(d, y, room); Progress(encodes, Left(y), x, out, r, o, tail, missing)
  {
    PrefixesCompare(y.avail, r, r + tail);
    var s := d.step(y.mem, y.avail, room, false);
    assert (y.avail + y.rest)[s.consumed..] == y.avail[s.consumed..] + y.rest;
    assert (r + tail)[s.consumed..] == r[s.consumed..] + tail;
  }

  lemma FillAwaits(z: Inflating, r: seq<byte>, tail: seq<byte>, missing: nat)
    requires Awaits(z, r, tail, missing)
    ensures Awaits(Fill(z), r, tail, missing)
    ensures Fill(z).avail == [] <==> Left(z) == 0
  {
    if z.avail == [] {
      var k := Min(BUFFER_SIZE, |z.rest|);
      assert z.rest[..k] + z.rest[k..] == z.rest;
    }
  }

  lemma FillKeeps(z: Inflating)
    ensures z.avail != [] ==> Fill(z) == z
    ensures Fill(z).mem == z.mem && Fill(z).code == z.code && Left(Fill(z)) == Left(z)
    ensures Fill(z).avail == [] <==> Left(z) == 0
  {
  }

  /** One round: the member ends in it, or what it leaves is the rest of the member. */
  lemma RoundDecodes(d: Decoder, encodes: Encoding, z: Inflating, room: nat, r: seq<byte>, o: seq<byte>,
                     tail: seq<byte>, missing: nat)
    requires Lawful(d) && DecodesMembers(d, encodes) && room > 0
    requires encodes(z.mem, r, o) && r != [] && Awaits(z, r, tail, missing) && z.code == Ok
    ensures var (x, out) := Round(d, z, room); Progress(encodes, Left(z), x, out, r, o, tail, missing)
  {
    hide Lawful, DecodesMembers, Fill, Inflate, Awaits, Progress;
    FillAwaits(z, r, tail, missing);
    FillKeeps(z);
    if Left(z) > 0 {
      InflateDecodes(d, encodes, Fill(z), room, r, o, tail, missing);
    } else {
      NoProgress(encodes, Fill(z), r, o, tail, missing);
    }
  }

  lemma NoProgress(encodes: Encoding, x: Inflating, r: seq<byte>, o: seq<byte>, tail: seq<byte>, missing: nat)
    requires encodes(x.mem, r, o) && r != [] && Awaits(x, r, tail, missing) && x.code == Ok
    ensures Progress(encodes, Left(x), x, [], r, o, tail, missing)
  {
    assert o[0..] == o && r[0..] == r;
  }

  /** One refill: either the member ends in it, or it is full, or the input is cut and used up. */
  lemma {:induction false} LoopDecodes(d: Decoder, encodes: Encoding, z: Inflating, room: nat, r: seq<byte>,
                                       o: seq<byte>, tail: seq<byte>, missing: nat) returns (r': seq<byte>)
    requires Lawful(d) && DecodesMembers(d, encodes) && room > 0
    requires encodes(z.mem, r, o) && r != [] && Awaits(z, r, tail, missing) && z.code == Ok
    ensures var (w, out) := Loop(d, z, room);
      && w.code != Fail && out <= o
      && (w.code == Ok ==> r' != [] && encodes(w.mem, r', o[|out|..]) && Awaits(w, r', tail, missing))
      && (w.code == End ==> out == o && w.avail + w.rest <= tail && |tail| == Left(w) + missing)
    decreases Left(z), d.rank(z.mem)
  {
    hide Lawful, DecodesMembers, Round, Awaits;
    r' := r;
    RoundDecodes(d, encodes, z, room, r, o, tail, missing);
    var (x, out) := Round(d, z, room);
    if x.code == Ok {
      r' := r[Left(z) - Left(x)..];
      if |out| < room && Left(z) > 0 {
        var more := Loop(d, x, room - |out|).1;
        r' := LoopDecodes(d, encodes, x, room - |out|, r', o[|out|..], tail, missing);
        assert o[|out|..][|more|..] == o[|out + more|..];
      }
    }
  }

  /** What is delivered from a member, or from a prefix of one, is (a prefix of) its decoded bytes. */
  lemma {:induction false} InflatedDecodes(d: Decoder, encodes: Encoding, z: Inflating, r: seq<byte>, o: seq<byte>,
                                           tail: seq<byte>, missing: nat)
    requires Lawful(d) && Latching(d) && DecodesMembers(d, encodes)
    requires encodes(z.mem, r, o) && r != [] && Awaits(z, r, tail, missing) && z.code == Ok
    ensures Inflated(d, z) <= o
    ensures missing == 0 ==> Inflated(d, z) == o
    decreases Left(z), d.rank(z.mem)
  {
    hide Lawful, Latching, DecodesMembers, Loop, Refills, Inflated;
    var r' := LoopDecodes(d, encodes, z, REFILL, r, o, tail, missing);
    InflatedStep(d, z);
    var (w, out) := Unzip(d, z, REFILL);
    UnzipSettled(d, z, REFILL);
    if w.code == Ok {
      if out != [] {
        InflatedDecodes(d, encodes, w, r', o[|out|..], tail, missing);
      }
    } else {
      UnzipSettled(d, w, REFILL);
      InflatedStep(d, w);
    }
  }

  /** Main result: a file that starts with a gzip member delivers exactly the member's decoded bytes, however the
      decoder splits its work and whatever follows the member. */
  lemma MemberDelivered(d: Decoder, encodes: Encoding, member: seq<byte>, decoded: seq<byte>, tail: seq<byte>)
    requires Lawful(d) && Latching(d) && DecodesMembers(d, encodes)
    requires encodes(d.start, member, decoded) && member != []
    ensures Inflated(d, Start(d, member + tail)) == decoded
  {
    hide Lawful, Latching, DecodesMembers, Inflated;
    assert [] + (member + tail) == member + tail;
    InflatedDecodes(d, encodes, Start(d, member + tail), member, decoded, tail, 0);
  }

  lemma ConcatFirst(parts: seq<seq<byte>>)
    requires parts != []
    ensures Concat(parts) == parts[0] + Concat(parts[1..])
  {
  }

  /** A file of several members delivers the first one's bytes, and thus all bytes exactly if the others have none. */
  lemma MembersDelivered(d: Decoder, encodes: Encoding, members: seq<seq<byte>>, parts: seq<seq<byte>>)
    requires Lawful(d) && Latching(d) && DecodesMembers(d, encodes) && |members| == |parts| > 0
    requires forall i :: 0 <= i < |members| ==> members[i] != [] && encodes(d.start, members[i], parts[i])
    ensures Inflated(d, Start(d, Concat(members))) == parts[0]
    ensures Inflated(d, Start(d, Concat(members))) == Concat(parts) <==> Concat(parts[1..]) == []
  {
    hide Lawful, Latching, DecodesMembers, Inflated, Concat;
    ConcatFirst(members);
    ConcatFirst(parts);
    MemberDelivered(d, encodes, members[0], parts[0], Concat(members[1..]));
    assert Concat(parts[1..]) == [] ==> parts[0] + Concat(parts[1..]) == parts[0];
  }

  // ----- any input: all that the decoder hands out is delivered -----

  function Input(z: Inflating): seq<byte> {
    z.avail + z.rest
  }

  /** These calls hand out exactly `out` before the decoder stops or the input is used up. */
  ghost predicate HandsOut(d: Decoder, mem: Memory, bytes: seq<byte>, offers: seq<Offer>, out: seq<byte>) {
    && Legal(d, mem, bytes, offers) && (forall f <- offers :: !f.finish)
    && var r := Result(d, mem, bytes, offers);
       out == r.out + r.failed && (r.code == Ok ==> r.left == [])
  }

  /** A state of the loop is the result of calls. */
  ghost predicate Reached(d: Decoder, z: Inflating, offers: seq<Offer>, w: Inflating, out: seq<byte>) {
    && Legal(d, z.mem, Input(z), offers) && (forall f <- offers :: !f.finish)
    && var r := Result(d, z.mem, Input(z), offers);
       out == r.out + r.failed && r.code == w.code && (r.code == Ok ==> r.failed == [])
       && r.mem == w.mem && r.left == Input(w)
  }

  lemma FillInput(z: Inflating)
    ensures Input(Fill(z)) == Input(z) && Fill(z).mem == z.mem && Fill(z).code == z.code
    ensures Fill(z).avail == [] <==> Input(z) == []
  {
    if z.avail == [] {
      var k := Min(BUFFER_SIZE, |z.rest|);
      assert z.rest[..k] + z.rest[k..] == z.rest;
    }
  }

  /** One round is one call, or none if there is no input. */
  lemma RoundRuns(d: Decoder, z: Inflating, room: nat, later: seq<Offer>, w: Inflating, more: seq<byte>)
    returns (offers: seq<Offer>)
    requires Lawful(d) && room > 0 && z.code == Ok && Left(z) > 0
    requires Round(d, z, room).0.code == Ok ==> Reached(d, Round(d, z, room).0, later, w, more)
    requires Round(d, z, room).0.code != Ok ==> w == Round(d, z, room).0 && more == []
    ensures Reached(d, z, offers, w, Round(d, z, room).1 + more)
  {
    hide Fill, Result, Legal;
    FillInput(z);
    var y := Fill(z);
    var o := Offer(|y.avail|, room, false);
    var bytes := Input(z);
    assert bytes[..o.take] == y.avail;
    StepInBounds(d, z.mem, y.avail, room, false);
    var s := d.step(z.mem, y.avail, room, false);
    assert bytes[s.consumed..] == Skip(y.avail, s.consumed) + y.rest;
    FirstCall(d, z.mem, bytes, o, later);
    if s.code == Ok {
      offers := [o] + later;
      Associative(s.produced, Result(d, s.mem, bytes[s.consumed..], later).out,
                  Result(d, s.mem, bytes[s.consumed..], later).failed);
    } else {
      offers := [o];
      assert s.produced + [] == s.produced;
    }
  }

  lemma NoCalls(d: Decoder, z: Inflating)
    requires z.code == Ok
    ensures Reached(d, z, [], z, [])
  {
  }

  lemma {:induction false} LoopRuns(d: Decoder, z: Inflating, room: nat) returns (offers: seq<Offer>)
    requires Lawful(d) && room > 0 && z.code == Ok
    ensures Reached(d, z, offers, Loop(d, z, room).0, Loop(d, z, room).1)
    decreases Left(z), d.rank(z.mem)
  {
    hide Lawful, Round, Reached;
    var (x, out) := Round(d, z, room);
    if Left(z) == 0 {
      EmptyRound(d, z, room);
      offers := [];
    } else if x.code == Ok && |out| < room {
      var later := LoopRuns(d, x, room - |out|);
      var (w, more) := Loop(d, x, room - |out|);
      offers := RoundRuns(d, z, room, later, w, more);
    } else {
      if x.code == Ok {
        NoCalls(d, x);
      }
      offers := RoundRuns(d, z, room, [], x, []);
      assert out + [] == out;
    }
  }

  lemma EmptyRound(d: Decoder, z: Inflating, room: nat)
    requires Lawful(d) && room > 0 && z.code == Ok && Left(z) == 0
    ensures Reached(d, z, [], Round(d, z, room).0, Round(d, z, room).1)
  {
  }

  /** The rewind changes neither the state nor what is still to be read. */
  lemma RewindReached(d: Decoder, z: Inflating, offers: seq<Offer>, w: Inflating, out: seq<byte>)
    requires Reached(d, z, offers, w, out)
    ensures Reached(d, z, offers, Rewind(w), out)
  {
  }

  lemma ReachedThen(d: Decoder, z: Inflating, a: seq<Offer>, w: Inflating, out: seq<byte>, b: seq<Offer>,
                    more: seq<byte>)
    requires Reached(d, z, a, w, out) && w.code == Ok && HandsOut(d, w.mem, Input(w), b, more)
    ensures HandsOut(d, z.mem, Input(z), a + b, out + more)
  {
    hide Legal, Result;
    MoreCalls(d, z.mem, Input(z), a, b);
    var r, rest := Result(d, z.mem, Input(z), a), Result(d, w.mem, Input(w), b);
    assert out == r.out;
    Associative(r.out, rest.out, rest.failed);
  }

  lemma ReachedEnd(d: Decoder, z: Inflating, a: seq<Offer>, w: Inflating, out: seq<byte>)
    requires Reached(d, z, a, w, out) && (w.code == Ok ==> Left(w) == 0)
    ensures HandsOut(d, z.mem, Input(z), a, out)
  {
  }

  lemma {:induction false} InflatedRuns(d: Decoder, z: Inflating) returns (offers: seq<Offer>)
    requires Lawful(d) && Latching(d) && Settled(d, z) && z.code == Ok
    ensures HandsOut(d, z.mem, Input(z), offers, Inflated(d, z))
    decreases Left(z), d.rank(z.mem)
  {
    hide Lawful, Latching, Settled, Loop, Refills, Inflated, Reached, HandsOut;
    offers := LoopRuns(d, z, REFILL);
    RewindReached(d, z, offers, Loop(d, z, REFILL).0, Loop(d, z, REFILL).1);
    var (w, out) := Unzip(d, z, REFILL);
    InflatedStep(d, z);
    UnzipSettled(d, z, REFILL);
    if out == [] || w.code != Ok {
      if out != [] {
        UnzipSettled(d, w, REFILL);
        InflatedStep(d, w);
        assert out + [] == out;
      }
      ReachedEnd(d, z, offers, w, out);
    } else {
      var later := InflatedRuns(d, w);
      ReachedThen(d, z, offers, w, out, later, Inflated(d, w));
      offers := offers + later;
    }
  }

  /** Main result, for any bytes: what is delivered is what some sequence of decoder calls hands out that shows the
      decoder the bytes in order and stops only when it ends or fails, or at the end of the input. */
  lemma AllHandedOut(d: Decoder, bytes: seq<byte>) returns (offers: seq<Offer>)
    requires Lawful(d) && Latching(d)
    ensures HandsOut(d, d.start, bytes, offers, Inflated(d, Start(d, bytes)))
  {
    hide Lawful, Latching, Inflated, HandsOut;
    NothingAhead(bytes);
    offers := InflatedRuns(d, Start(d, bytes));
  }

  /** A member cut anywhere delivers a prefix of its decoded bytes, which lacks only what the decoder, in its state
      after it has been shown all that is there, makes of the missing bytes. */
  lemma CutMemberDelivered(d: Decoder, encodes: Encoding, member: seq<byte>, decoded: seq<byte>, cut: nat)
    returns (offers: seq<Offer>)
    requires Lawful(d) && Latching(d) && DecodesMembers(d, encodes)
    requires encodes(d.start, member, decoded) && cut <= |member|
    ensures Inflated(d, Start(d, member[..cut])) <= decoded
    ensures cut == |member| > 0 ==> Inflated(d, Start(d, member[..cut])) == decoded
    ensures HandsOut(d, d.start, member[..cut], offers, Inflated(d, Start(d, member[..cut])))
    ensures cut < |member| ==>
              var r := Result(d, d.start, member[..cut], offers);
              && r.code == Ok && r.left == [] && r.out == Inflated(d, Start(d, member[..cut]))
              && encodes(r.mem, member[cut..], decoded[|r.out|..])
  {
    hide Lawful, Latching, DecodesMembers, Inflated, Legal, Result, Unzip;
    offers := AllHandedOut(d, member[..cut]);
    if cut < |member| {
      CutMemberRun(d, encodes, d.start, member, decoded, member[..cut], offers);
      var r := Result(d, d.start, member[..cut], offers);
      assert r.out + [] == r.out;
    } else if member != [] {
      assert member[..cut] == member == member + [];
      MemberDelivered(d, encodes, member, decoded, []);
    } else {
      NoInputNoOutput(d, Start(d, []));
      InflatedStep(d, Start(d, []));
    }
  }

  // ----- where the input stands after the member -----

  /** The decompressor after k calls of underflow on an empty get area. */
  function AfterRefills(d: Decoder, z: Inflating, k: nat): Inflating
    requires Lawful(d)
    decreases k
  {
    if k == 0 then z else AfterRefills(d, Unzip(d, z, REFILL).0, k - 1)
  }

  /** Once a member has ended, further calls read ahead and rewind, and leave everything as it was. */
  lemma {:induction false} EndIsStable(d: Decoder, z: Inflating, k: nat)
    requires Lawful(d) && z.code == End && Latched(d, z.mem, End) && z.avail == []
    ensures AfterRefills(d, z, k) == z
  {
    if k > 0 {
      var y := Fill(z);
      assert y.avail + y.rest == z.rest;
      assert Unzip(d, z, REFILL) == (z, []);
      EndIsStable(d, z, k - 1);
    }
  }

  /** Unless a member has ended, a refill gives nothing back: the input only moves forward. */
  lemma RewindOnlyAtEnd(d: Decoder, z: Inflating, room: nat)
    requires Lawful(d) && room > 0
    ensures Unzip(d, z, room).0.code != End ==> |Unzip(d, z, room).0.rest| <= |z.rest|
  {
    LoopReads(d, z, room);
  }

  lemma {:induction false} LoopReads(d: Decoder, z: Inflating, room: nat)
    requires Lawful(d) && room > 0
    ensures |Loop(d, z, room).0.rest| <= |z.rest|
    decreases Left(z), d.rank(z.mem)
  {
    hide Lawful, Round;
    RoundReads(d, z, room);
    var (x, out) := Round(d, z, room);
    if x.code == Ok && |out| < room && Left(z) > 0 {
      LoopReads(d, x, room - |out|);
    }
  }

  lemma RoundReads(d: Decoder, z: Inflating, room: nat)
    requires Lawful(d) && room > 0
    ensures |Round(d, z, room).0.rest| <= |z.rest|
  {
    hide Lawful;
  }

  /** Main result: from the call that ends the member on, the unread input is exactly what follows the member. */
  lemma {:induction false} MemberConsumed(d: Decoder, encodes: Encoding, z: Inflating, r: seq<byte>, o: seq<byte>,
                                          tail: seq<byte>, k: nat)
    requires Lawful(d) && Latching(d) && DecodesMembers(d, encodes)
    requires encodes(z.mem, r, o) && r != [] && Awaits(z, r, tail, 0) && z.code == Ok
    ensures var w := AfterRefills(d, z, k);
      && w.code != Fail
      && (w.code == End ==> w.avail == [] && w.rest == tail)
      && (|o| / 4092 < k ==> w.code == End)
    decreases k
  {
    hide Lawful, Latching, DecodesMembers, Loop;
    if k > 0 {
      var r' := LoopDecodes(d, encodes, z, REFILL, r, o, tail, 0);
      var (w, out) := Unzip(d, z, REFILL);
      UnzipSettled(d, z, REFILL);
      if w.code == Ok {
        MemberConsumed(d, encodes, w, r', o[|out|..], tail, k - 1);
      } else {
        EndIsStable(d, w, k - 1);
      }
    }
  }
}
