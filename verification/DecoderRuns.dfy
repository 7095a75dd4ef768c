/** Sequences of decoder calls over given bytes, without buffers, refills or loops: what a decoder hands out when it is
    shown the bytes piece by piece. */
module DecoderRuns {
  import opened Bytes
  import opened Decoders

  /** What one call is offered: so many of the bytes not yet consumed, so much room, and whether this is all. */
  datatype Offer = Offer(take: nat, room: nat, finish: bool)

  /** After the calls: the state, the last return value, what calls that did not fail handed out, what a failing one
      did, and the bytes not consumed. */
  datatype Outcome = Outcome(mem: Memory, code: Code, out: seq<byte>, failed: seq<byte>, left: seq<byte>)

  /** An offer that a caller may make: some room, and some input unless the input is at its end. */
  ghost predicate Fair(d: Decoder, mem: Memory, bytes: seq<byte>, o: Offer) {
    && o.room > 0 && o.take <= |bytes| && (o.take > 0 || o.finish) && (o.finish ==> o.take == |bytes|)
    && d.step(mem, bytes[..o.take], o.room, o.finish).consumed <= o.take
  }

  /** Fair offers, each but the last answered with Ok. */
  ghost predicate Legal(d: Decoder, mem: Memory, bytes: seq<byte>, offers: seq<Offer>)
    decreases |offers|
  {
    offers == [] ||
    (Fair(d, mem, bytes, offers[0]) &&
     var s := d.step(mem, bytes[..offers[0].take], offers[0].room, offers[0].finish);
     if s.code == Ok then Legal(d, s.mem, bytes[s.consumed..], offers[1..]) else |offers| == 1)
  }

  ghost function Result(d: Decoder, mem: Memory, bytes: seq<byte>, offers: seq<Offer>): Outcome
    requires Legal(d, mem, bytes, offers)
    decreases |offers|
  {
    if offers == [] then Outcome(mem, Ok, [], [], bytes)
    else
      var s := d.step(mem, bytes[..offers[0].take], offers[0].room, offers[0].finish);
      var left := bytes[s.consumed..];
      match s.code
      case Ok =>
        var rest := Result(d, s.mem, left, offers[1..]);
        rest.(out := s.produced + rest.out)
      case End => Outcome(s.mem, End, s.produced, [], left)
      case Fail => Outcome(s.mem, Fail, [], s.produced, left)
  }

  /** One more call in front. */
  lemma FirstCall(d: Decoder, mem: Memory, bytes: seq<byte>, o: Offer, later: seq<Offer>)
    requires Fair(d, mem, bytes, o)
    ensures var s := d.step(mem, bytes[..o.take], o.room, o.finish);
      && (s.code == Ok && Legal(d, s.mem, bytes[s.consumed..], later) ==>
            && Legal(d, mem, bytes, [o] + later)
            && var rest := Result(d, s.mem, bytes[s.consumed..], later);
               Result(d, mem, bytes, [o] + later) == rest.(out := s.produced + rest.out))
      && (s.code != Ok ==>
            && Legal(d, mem, bytes, [o])
            && var r := Result(d, mem, bytes, [o]);
               && r.mem == s.mem && r.code == s.code && r.left == bytes[s.consumed..] && r.out + r.failed == s.produced
               && (s.code == Fail ==> r.out == []))
  {
    hide Fair;
    assert ([o] + later)[1..] == later && [o][1..] == [];
  }

  /** Calls that all succeed, and then further ones. */
  lemma {:induction false} MoreCalls(d: Decoder, mem: Memory, bytes: seq<byte>, a: seq<Offer>, b: seq<Offer>)
    requires Legal(d, mem, bytes, a) && Result(d, mem, bytes, a).code == Ok
    requires var r := Result(d, mem, bytes, a); Legal(d, r.mem, r.left, b)
    ensures Legal(d, mem, bytes, a + b)
    ensures var r := Result(d, mem, bytes, a);
      var rest := Result(d, r.mem, r.left, b);
      Result(d, mem, bytes, a + b) == rest.(out := r.out + rest.out)
    decreases |a|
  {
    if a == [] {
      assert a + b == b;
      NothingAhead(Result(d, mem, bytes, b).out);
    } else {
      var s := d.step(mem, bytes[..a[0].take], a[0].room, a[0].finish);
      var r := Result(d, mem, bytes, a);
      MoreCalls(d, s.mem, bytes[s.consumed..], a[1..], b);
      assert (a + b)[1..] == a[1..] + b;
      Associative(s.produced, Result(d, s.mem, bytes[s.consumed..], a[1..]).out, Result(d, r.mem, r.left, b).out);
    }
  }

  /** What is left is an end of the bytes; the rest was consumed. */
  lemma {:induction false} LeftIsEnd(d: Decoder, mem: Memory, bytes: seq<byte>, offers: seq<Offer>)
    requires Legal(d, mem, bytes, offers)
    ensures var r := Result(d, mem, bytes, offers); |r.left| <= |bytes| && r.left == bytes[|bytes| - |r.left|..]
    decreases |offers|
  {
    if offers != [] {
      var s := d.step(mem, bytes[..offers[0].take], offers[0].room, offers[0].finish);
      if s.code == Ok {
        LeftIsEnd(d, s.mem, bytes[s.consumed..], offers[1..]);
      }
    }
  }

  /** A member of which only a start is there: no call fails or ends, and the state after all calls awaits what is
      missing and has handed out all but what that decodes to. */
  lemma {:induction false} CutMemberRun(d: Decoder, encodes: Encoding, mem: Memory, r: seq<byte>, o: seq<byte>,
                                        bytes: seq<byte>, offers: seq<Offer>)
    requires DecodesMembers(d, encodes) && encodes(mem, r, o) && bytes < r
    requires Legal(d, mem, bytes, offers) && forall f <- offers :: !f.finish
    ensures var e := Result(d, mem, bytes, offers);
      && e.code == Ok && e.out <= o && e.failed == []
      && |e.left| <= |bytes|
      && encodes(e.mem, r[|bytes| - |e.left|..], o[|e.out|..])
    decreases |offers|
  {
    hide DecodesMembers;
    if offers == [] {
      assert r[0..] == r && o[0..] == o;
    } else {
      var f := offers[0];
      var chunk := bytes[..f.take];
      var s := d.step(mem, chunk, f.room, false);
      MemberStep(d, encodes, mem, r, o, chunk, f.room);
      var left := bytes[s.consumed..];
      CutMemberRun(d, encodes, s.mem, r[s.consumed..], o[|s.produced|..], left, offers[1..]);
      var e := Result(d, s.mem, left, offers[1..]);
      assert r[s.consumed..][|left| - |e.left|..] == r[|bytes| - |e.left|..];
      assert o[|s.produced|..][|e.out|..] == o[|s.produced + e.out|..];
    }
  }

  lemma MemberStep(d: Decoder, encodes: Encoding, mem: Memory, r: seq<byte>, o: seq<byte>, chunk: seq<byte>, room: nat)
    requires DecodesMembers(d, encodes) && encodes(mem, r, o) && chunk < r && chunk != [] && room > 0
    requires d.step(mem, chunk, room, false).consumed <= |chunk|
    ensures var s := d.step(mem, chunk, room, false);
      && s.code == Ok && s.produced <= o && encodes(s.mem, r[s.consumed..], o[|s.produced|..])
  {
    assert Comparable(chunk, r);
    assert AdvancesMember(d, encodes, mem, r, o, chunk, room);
  }
}
