/** std::ifstream, as far as netbox uses it: a byte sequence, a position, and the sticky state bits of an istream. */
module FileStreams {
  import opened Bytes

  class FileStream {
    const bytes: seq<byte>
    var pos: nat
    var eofbit: bool
    var failbit: bool

    ghost predicate Valid()
      reads this
    {
      pos <= |bytes| && (eofbit ==> failbit) && (failbit ==> pos == |bytes|)
    }

    /** Opening a file that exists. */
    constructor Open(bytes: seq<byte>)
      ensures Valid() && this.bytes == bytes && pos == 0 && !eofbit && !failbit
    {
      this.bytes := bytes;
      pos, eofbit, failbit := 0, false, false;
    }

    /** Opening a file that does not exist sets failbit. */
    constructor Missing()
      ensures Valid() && bytes == [] && !eofbit && failbit
    {
      bytes := [];
      pos, eofbit, failbit := 0, false, true;
    }

    /** A default-constructed stream has no file, yet all its state bits are clear. */
    constructor Default()
      ensures Valid() && bytes == [] && !eofbit && !failbit
    {
      bytes := [];
      pos, eofbit, failbit := 0, false, false;
    }

    ghost function Rest(): seq<byte>
      reads this
      requires Valid()
    {
      bytes[pos..]
    }

    predicate Good()
      reads this
    {
      !eofbit && !failbit
    }

    /** read(buf, n) followed by gcount(). */
    method Read(buf: array<byte>, n: nat) returns (count: nat)
      requires Valid() && n <= buf.Length
      modifies this, buf
      ensures Valid()
      ensures count == Min(n, |old(Rest())|)
      ensures buf[..count] == old(Rest())[..count] && buf[count..] == old(buf[count..])
      ensures pos == old(pos) + count && Rest() == Skip(old(Rest()), count)
      ensures old(Good()) && n <= |old(Rest())| ==> Good()
      ensures old(Good()) && n > |old(Rest())| ==> eofbit
      ensures !old(Good()) ==> failbit && eofbit == old(eofbit)
    {
      if !Good() {
        failbit := true;
        return 0;
      }
      count := Min(n, |bytes| - pos);
      forall i | 0 <= i < count {
        buf[i] := bytes[pos + i];
      }
      pos := pos + count;
      if count < n {
        eofbit, failbit := true, true;
      }
    }

    /** clear() followed by seekg(-back, cur). */
    method ClearAndSeekBack(back: nat)
      requires Valid() && back <= pos
      modifies this
      ensures Valid() && Good() && pos == old(pos) - back
    {
      eofbit, failbit := false, false;
      pos := pos - back;
    }
  }
}
