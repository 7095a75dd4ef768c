/** Octets, 32-bit words and their little-endian layout, as the structs of pcap.h are read by a little-endian host. */
module Bytes {

  type byte = b: int | 0 <= b < 256

  type u16 = w: int | 0 <= w < 0x1_0000

  type u32 = w: int | 0 <= w < 0x1_0000_0000

  datatype Option<+T> = None | Some(value: T)

  function Min(a: nat, b: nat): nat {
    if a <= b then a else b
  }

  /** A sequence without its first n elements, under a name that proofs can hide. */
  function Skip<T>(s: seq<T>, n: nat): seq<T>
    requires n <= |s|
  {
    s[n..]
  }

  lemma SkipAll<T>(s: seq<T>)
    ensures Skip(s, |s|) == []
  {
  }

  /** Slices of a cut sequence are slices of the whole one. */
  lemma CutSlice<T>(s: seq<T>, cut: nat, lo: nat, hi: nat)
    requires lo <= hi <= cut <= |s|
    ensures s[..cut][lo..hi] == s[lo..hi]
    ensures s[..cut][hi..] == s[hi..][..cut - hi]
  {
  }

  lemma DropFront<T>(s: seq<T>, lo: nat, mid: nat, hi: nat)
    requires lo <= mid <= hi <= |s|
    ensures Skip(s[lo..hi], mid - lo) == s[mid..hi]
  {
  }

  lemma SliceJoin<T>(s: seq<T>, lo: nat, mid: nat, hi: nat)
    requires lo <= mid <= hi <= |s|
    ensures s[lo..hi] == s[lo..mid] + s[mid..hi]
  {
  }

  lemma SplitAt<T>(whole: seq<T>, front: seq<T>, back: seq<T>, from: nat)
    requires whole == front + back && from <= |front|
    ensures whole[from..|front|] == front[from..] && whole[|front|..] == back
  {
  }

  lemma FrontOf<T>(whole: seq<T>, front: seq<T>, back: seq<T>)
    requires whole == front + back
    ensures whole[..|front|] == front && Skip(whole, |front|) == back
  {
  }

  lemma Associative<T>(a: seq<T>, b: seq<T>, c: seq<T>)
    ensures a + b + c == a + (b + c)
  {
  }

  lemma NothingAhead<T>(b: seq<T>)
    ensures [] + b == b
  {
  }

  function Le16(w: u16): seq<byte> {
    [w % 256, w / 256]
  }

  function Le32(w: u32): seq<byte> {
    [w % 256, w / 256 % 256, w / 0x1_0000 % 256, w / 0x100_0000]
  }

  /** The number whose little-endian digits in base 256 are `b`. */
  function LeValue(b: seq<byte>): nat {
    if b == [] then 0 else b[0] as int + 256 * LeValue(b[1..])
  }

  lemma FourDigits(b: seq<byte>)
    requires |b| == 4
    ensures LeValue(b) == b[0] as int + 256 * b[1] as int + 0x1_0000 * b[2] as int + 0x100_0000 * b[3] as int
  {
    var t := b[1..];
    var u := t[1..];
    assert LeValue(u[1..]) == b[3] as int;
    assert LeValue(t) == t[0] as int + 256 * LeValue(u);
  }

  /** The 32-bit word stored at offset `at`. */
  function U32At(b: seq<byte>, at: nat): u32
    requires at + 4 <= |b|
  {
    FourDigits(b[at..at + 4]);
    LeValue(b[at..at + 4])
  }

  /** Writing a word anywhere and reading it back gives the word. */
  lemma Le32RoundTrip(w: u32, b: seq<byte>, at: nat)
    requires at + 4 <= |b| && b[at..at + 4] == Le32(w)
    ensures U32At(b, at) == w
  {
    FourDigits(Le32(w));
    assert w / 0x1_0000 == w / 256 / 256 && w / 0x100_0000 == w / 256 / 256 / 256;
  }
}
