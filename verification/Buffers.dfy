/** StaticBuffer, a byte FIFO in fixed storage that moves its contents to the front, and ConsumingBuffer, a view that
    slides over them. */
module Buffers {
  import opened Bytes

  /** A part of the storage, as a MutableBuffer describes it. */
  datatype Region = Region(offset: nat, length: nat)

  datatype Prepared = Ready(region: Region) | LengthError

  /** Storage of which the first `size` bytes are in use, after consume(n). */
  function Moved(memory: seq<byte>, size: nat, n: nat): seq<byte>
    requires n <= size <= |memory|
  {
    if n == size then memory else memory[n..size] + memory[size - n..]
  }

  lemma CutAt(memory: seq<byte>, size: nat, n: nat)
    requires n <= size <= |memory|
    ensures memory[..size] == memory[..size][..n] + Skip(memory[..size], n)
    ensures n == size ==> Moved(memory, size, n) == memory && Skip(memory[..size], n) == []
  {
  }

  /** Bytes moved to the front, one by one. */
  lemma MovedIs(memory: seq<byte>, r: seq<byte>, size: nat, n: nat)
    requires n < size <= |memory| == |r|
    requires forall i :: 0 <= i < size - n ==> r[i] == memory[n + i]
    requires forall i :: size - n <= i < |r| ==> r[i] == memory[i]
    ensures r == Moved(memory, size, n) && r[..size - n] == Skip(memory[..size], n)
  {
  }

  class StaticBuffer {
    const data: array<byte>
    var size: nat

    /** All bytes committed, and all bytes consumed, since the buffer was made. */
    ghost var committed: seq<byte>
    ghost var consumed: seq<byte>

    /** First in, first out: what was committed is what was consumed and then what is there. */
    ghost predicate Valid()
      reads this, data
    {
      size <= data.Length && committed == consumed + data[..size]
    }

    ghost function Contents(): seq<byte>
      requires Valid()
      reads this, data
    {
      data[..size]
    }

    constructor (storage: array<byte>)
      ensures Valid() && data == storage && Contents() == [] && committed == [] && consumed == []
    {
      data, size, committed, consumed := storage, 0, [], [];
    }

    /** prepare(): all the free space. */
    method PrepareAll() returns (r: Region)
      requires Valid()
      ensures r == Region(size, data.Length - size)
    {
      r := Region(size, data.Length - size);
    }

    /** prepare(n) fails exactly when the free space is too small. */
    method Prepare(n: nat) returns (p: Prepared)
      requires Valid()
      ensures p == if |Contents()| + n > data.Length then LengthError else Ready(Region(|Contents()|, n))
    {
      if data.Length - size < n {
        return LengthError;
      }
      p := Ready(Region(size, n));
    }

    /** The caller writes into a prepared region; nothing is visible before commit. */
    method Fill(r: Region, bytes: seq<byte>)
      requires Valid() && r.offset == size && |bytes| <= r.length <= data.Length - size
      modifies data
      ensures Valid() && Contents() == old(Contents())
      ensures data[size..size + |bytes|] == bytes
    {
      ghost var kept := data[..size];
      forall i | 0 <= i < |bytes| {
        data[r.offset + i] := bytes[i];
      }
      assert data[..size] == kept;
    }

    method Commit(n: nat)
      requires Valid() && n <= data.Length - size
      modifies this
      ensures Valid() && Contents() == old(Contents()) + data[old(size)..old(size) + n]
      ensures committed == old(committed) + data[old(size)..old(size) + n] && consumed == old(consumed)
    {
      committed := committed + data[size..size + n];
      assert data[..size + n] == data[..size] + data[size..size + n];
      size := size + n;
    }

    method Consume(n: nat)
      requires Valid() && n <= size
      modifies this, data
      ensures Valid() && Contents() == Skip(old(Contents()), n)
      ensures consumed == old(consumed) + old(Contents())[..n] && committed == old(committed)
      ensures size == old(size) - n
      ensures data[..] == Moved(old(data[..]), old(size), n)
    {
      hide Moved, Skip;
      ghost var memory := data[..];
      CutAt(memory, size, n);
      Associative(consumed, memory[..size][..n], Skip(memory[..size], n));
      consumed := consumed + memory[..size][..n];
      if size == n {
        size := 0;
      } else {
        var count := size - n;
        forall i | 0 <= i < count {
          data[i] := data[n + i];
        }
        size := count;
        MovedIs(memory, data[..], count + n, n);
      }
    }
  }

  class ConsumingBuffer {
    const data: array<byte>
    var start: nat
    var size: nat

    ghost predicate Valid()
      reads this
    {
      start + size <= data.Length
    }

    ghost function Contents(): seq<byte>
      requires Valid()
      reads this, data
    {
      data[start..start + size]
    }

    constructor (data: array<byte>, size: nat)
      requires size <= data.Length
      ensures Valid() && this.data == data && Contents() == data[..size]
    {
      this.data, start, this.size := data, 0, size;
    }

    method Consume(n: nat)
      requires Valid() && n <= size
      modifies this
      ensures Valid() && start == old(start) + n && size == old(size) - n
      ensures Contents() == Skip(old(Contents()), n)
    {
      start, size := start + n, size - n;
    }
  }

  function Sum(sizes: seq<nat>): nat {
    if sizes == [] then 0 else Sum(sizes[..|sizes| - 1]) + sizes[|sizes| - 1]
  }

  lemma {:induction false} SumGrows(sizes: seq<nat>, i: nat)
    requires i <= |sizes|
    ensures Sum(sizes[..i]) <= Sum(sizes)
  {
    if i < |sizes| {
      SumGrows(sizes[..|sizes| - 1], i);
      assert sizes[..|sizes| - 1][..i] == sizes[..i];
    } else {
      assert sizes[..i] == sizes;
    }
  }

  lemma SkipMore(all: seq<byte>, done: nat, n: nat)
    requires done + n <= |all|
    ensures Skip(Skip(all, done), n) == Skip(all, done + n) && |Skip(all, done)| == |all| - done
    ensures all[..done + n] == all[..done] + Skip(all, done)[..n]
  {
  }

  lemma NextSum(sizes: seq<nat>, i: nat)
    requires i < |sizes|
    ensures Sum(sizes[..i + 1]) == Sum(sizes[..i]) + sizes[i] <= Sum(sizes)
  {
    SumGrows(sizes, i + 1);
    assert sizes[..i + 1][..i] == sizes[..i];
  }

  lemma SumFacts(sizes: seq<nat>)
    ensures Sum(sizes[..0]) == 0 && sizes[..|sizes|] == sizes
  {
  }

  // ----- the storage after several consumes -----

  /** Storage of which the first `size` bytes are in use, after consuming all of `sizes` in turn. */
  function AllMoved(memory: seq<byte>, size: nat, sizes: seq<nat>): (r: seq<byte>)
    requires Sum(sizes) <= size <= |memory|
    ensures |r| == |memory|
  {
    if sizes == [] then memory
    else
      var n := |sizes| - 1;
      Moved(AllMoved(memory, size, sizes[..n]), size - Sum(sizes[..n]), sizes[n])
  }

  /** The first consume that takes anything. */
  function FirstConsume(sizes: seq<nat>): nat {
    if sizes == [] then 0 else if sizes[0] > 0 then sizes[0] else FirstConsume(sizes[1..])
  }

  lemma {:induction false} FirstOfMore(sizes: seq<nat>, n: nat)
    ensures FirstConsume(sizes + [n]) == if FirstConsume(sizes) > 0 then FirstConsume(sizes) else n
    ensures Sum(sizes + [n]) == Sum(sizes) + n
    ensures FirstConsume(sizes) <= Sum(sizes) && (FirstConsume(sizes) == 0 <==> Sum(sizes) == 0)
  {
    assert (sizes + [n])[..|sizes|] == sizes;
    if sizes != [] {
      assert (sizes + [n])[1..] == sizes[1..] + [n];
      FirstOfMore(sizes[1..], n);
      SumFront(sizes);
    }
  }

  lemma {:induction false} SumFront(sizes: seq<nat>)
    requires sizes != []
    ensures Sum(sizes) == sizes[0] + Sum(sizes[1..])
  {
    var n := |sizes| - 1;
    if n > 0 {
      SumFront(sizes[..n]);
      assert sizes[1..][..n - 1] == sizes[..n][1..];
    }
  }

  /** Storage after `total` bytes have been consumed, `first` of them by the first move: the contents are at the front,
      memory is as it was from the end of the first move on, and no later move reaches the last byte it wrote. */
  ghost predicate Shifted(memory: seq<byte>, r: seq<byte>, size: nat, total: nat, first: nat) {
    && |r| == |memory| && first <= total <= size <= |memory| && (first == 0 ==> total == 0)
    && (forall i :: 0 <= i < size - total ==> r[i] == memory[total + i])
    && (forall i :: size - first <= i < |memory| ==> r[i] == memory[i])
    && (0 < first < size ==> r[size - first - 1] == memory[size - 1])
  }

  lemma {:induction false} AllMovedAt(memory: seq<byte>, size: nat, sizes: seq<nat>)
    requires Sum(sizes) <= size <= |memory|
    ensures Shifted(memory, AllMoved(memory, size, sizes), size, Sum(sizes), FirstConsume(sizes))
  {
    hide Shifted, Moved;
    if sizes == [] {
      NotShifted(memory, size);
    } else {
      var last := |sizes| - 1;
      var front, n := sizes[..last], sizes[last];
      assert sizes == front + [n];
      FirstOfMore(front, n);
      AllMovedAt(memory, size, front);
      ShiftMore(memory, AllMoved(memory, size, front), size, Sum(front), n, FirstConsume(front));
    }
  }

  lemma NotShifted(memory: seq<byte>, size: nat)
    requires size <= |memory|
    ensures Shifted(memory, memory, size, 0, 0)
  {
  }

  /** One more move, of n bytes. */
  lemma ShiftMore(memory: seq<byte>, before: seq<byte>, size: nat, total: nat, n: nat, first: nat)
    requires Shifted(memory, before, size, total, first) && total + n <= size
    ensures Shifted(memory, Moved(before, size - total, n), size, total + n, if first > 0 then first else n)
  {
    hide Moved;
    MovedBytes(before, size - total, n);
    var r := Moved(before, size - total, n);
    forall i | 0 <= i < size - total - n
      ensures r[i] == memory[total + n + i]
    {
      assert r[i] == before[n + i];
    }
  }

  lemma MovedBytes(memory: seq<byte>, size: nat, n: nat)
    requires n <= size <= |memory|
    ensures var r := Moved(memory, size, n);
      && |r| == |memory|
      && (forall i :: 0 <= i < size - n ==> r[i] == memory[n + i])
      && (forall i :: size - n <= i < |memory| ==> r[i] == memory[i])
  {
  }

  /** The moves do not reach what a view on the same memory still shows. */
  predicate Undisturbed(size: nat, sizes: seq<nat>) {
    Sum(sizes) == 0 || size <= Sum(sizes) + FirstConsume(sizes)
  }

  lemma SharedViewIntact(memory: seq<byte>, size: nat, sizes: seq<nat>)
    requires Sum(sizes) <= size <= |memory| && Undisturbed(size, sizes)
    ensures AllMoved(memory, size, sizes)[Sum(sizes)..size] == AllMoved(memory, size, sizes)[..size - Sum(sizes)]
  {
    hide AllMoved, Sum, FirstConsume;
    AllMovedAt(memory, size, sizes);
    var r, total := AllMoved(memory, size, sizes), Sum(sizes);
    forall i | 0 <= i < size - total
      ensures r[total..size][i] == r[..size - total][i]
    {
      assert r[total + i] == memory[total + i] == r[i];
    }
  }

  lemma SharedViewBroken(memory: seq<byte>, size: nat, sizes: seq<nat>)
    requires Sum(sizes) <= size <= |memory| && !Undisturbed(size, sizes) && FirstConsume(sizes) > 0
    requires memory[size - FirstConsume(sizes) - 1] != memory[size - 1]
    ensures AllMoved(memory, size, sizes)[Sum(sizes)..size] != AllMoved(memory, size, sizes)[..size - Sum(sizes)]
  {
    hide AllMoved, Sum, FirstConsume;
    AllMovedAt(memory, size, sizes);
    var r, total := AllMoved(memory, size, sizes), Sum(sizes);
    var k := size - FirstConsume(sizes) - 1 - total;
    assert r[total..size][k] == r[total + k] == memory[size - 1];
    assert r[..size - total][k] == r[k] == memory[total + k];
  }

  /** Main result: a view opened on a StaticBuffer's own memory shows, after any consumes by both, the buffer's contents
      for every memory exactly when nothing was consumed or what the first move wrote has been consumed too. */
  lemma SharedViewIntactIff(capacity: nat, size: nat, sizes: seq<nat>)
    requires Sum(sizes) <= size <= capacity
    ensures (forall memory: seq<byte> :: |memory| == capacity ==>
               AllMoved(memory, size, sizes)[Sum(sizes)..size] == AllMoved(memory, size, sizes)[..size - Sum(sizes)])
            <==> Undisturbed(size, sizes)
  {
    hide AllMoved, Sum, FirstConsume;
    var total, first := Sum(sizes), FirstConsume(sizes);
    if Undisturbed(size, sizes) {
      forall memory: seq<byte> | |memory| == capacity
        ensures AllMoved(memory, size, sizes)[total..size] == AllMoved(memory, size, sizes)[..size - total]
      {
        SharedViewIntact(memory, size, sizes);
      }
    } else {
      var memory: seq<byte> := seq(capacity, i => if i == size - 1 then 1 else 0);
      FirstOfMore(sizes, 0);
      SharedViewBroken(memory, size, sizes);
    }
  }

  // ----- the two buffers side by side -----

  /** One consume by both. */
  method ConsumeOne(fifo: StaticBuffer, view: ConsumingBuffer, n: nat)
    requires fifo.Valid() && view.Valid() && n <= fifo.size == view.size
    modifies fifo, fifo.data, view
    ensures fifo.Valid() && view.Valid()
    ensures fifo.size == view.size == old(fifo.size) - n && view.start == old(view.start) + n
    ensures fifo.data[..] == Moved(old(fifo.data[..]), old(fifo.size), n)
    ensures view.data != fifo.data ==> view.Contents() == Skip(old(view.Contents()), n)
    ensures fifo.Contents() == Skip(old(fifo.Contents()), n)
    ensures fifo.consumed == old(fifo.consumed) + old(fifo.Contents())[..n]
  {
    fifo.Consume(n);
    view.Consume(n);
  }

  /** Main result: after any consumes, moving the bytes and sliding the view show the same contents if the view has a
      memory of its own, and if it was opened on the buffer's own memory, whenever the moves do not reach it. */
  method ConsumeBoth(fifo: StaticBuffer, view: ConsumingBuffer, sizes: seq<nat>)
    requires fifo.Valid() && view.Valid() && (view.data == fifo.data ==> view.start == 0)
    requires fifo.Contents() == view.Contents() && Sum(sizes) <= |fifo.Contents()|
    modifies fifo, fifo.data, view
    ensures fifo.Valid() && view.Valid()
    ensures fifo.Contents() == Skip(old(fifo.Contents()), Sum(sizes))
    ensures fifo.consumed == old(fifo.consumed) + old(fifo.Contents())[..Sum(sizes)]
    ensures fifo.data[..] == AllMoved(old(fifo.data[..]), old(fifo.size), sizes)
    ensures view.start == old(view.start) + Sum(sizes) && view.size == fifo.size
    ensures view.data != fifo.data || Undisturbed(old(fifo.size), sizes) ==> view.Contents() == fifo.Contents()
  {
    hide Skip, Sum, AllMoved, Moved, StaticBuffer.Valid, StaticBuffer.Contents, ConsumingBuffer.Valid,
      ConsumingBuffer.Contents, Undisturbed;
    ghost var memory, all, done := fifo.data[..], fifo.Contents(), 0;
    BothSizes(fifo, view);
    SumFacts(sizes);
    SkipNothing(all);
    MovedNothing(memory, fifo.size);
    assert all[..0] == [];
    for i := 0 to |sizes|
      invariant fifo.Valid() && view.Valid() && done == Sum(sizes[..i]) <= |all|
      invariant fifo.size == view.size == |all| - done && view.start == old(view.start) + done
      invariant fifo.Contents() == Skip(all, done) && fifo.consumed == old(fifo.consumed) + all[..done]
      invariant view.data != fifo.data ==> view.Contents() == Skip(all, done)
      invariant fifo.data[..] == AllMoved(memory, |all|, sizes[..i])
    {
      NextSum(sizes, i);
      SkipMore(all, done, sizes[i]);
      MovedNext(memory, |all|, sizes, i);
      ConsumeOne(fifo, view, sizes[i]);
      Associative(old(fifo.consumed), all[..done], Skip(all, done)[..sizes[i]]);
      done := done + sizes[i];
    }
    if view.data == fifo.data && Undisturbed(|all|, sizes) {
      SharedContents(fifo, view, memory, |all|, sizes);
    }
  }

  lemma BothSizes(fifo: StaticBuffer, view: ConsumingBuffer)
    requires fifo.Valid() && view.Valid() && fifo.Contents() == view.Contents()
    ensures fifo.size == view.size == |fifo.Contents()| <= |fifo.data[..]|
  {
  }

  lemma MovedNothing(memory: seq<byte>, size: nat)
    requires size <= |memory|
    ensures AllMoved(memory, size, []) == memory
  {
  }

  lemma MovedNext(memory: seq<byte>, size: nat, sizes: seq<nat>, i: nat)
    requires i < |sizes| && Sum(sizes) <= size <= |memory|
    ensures Sum(sizes[..i + 1]) == Sum(sizes[..i]) + sizes[i] <= size
    ensures AllMoved(memory, size, sizes[..i + 1]) ==
            Moved(AllMoved(memory, size, sizes[..i]), size - Sum(sizes[..i]), sizes[i])
  {
    hide Moved, Sum;
    NextSum(sizes, i);
    assert sizes[..i + 1][..i] == sizes[..i];
  }

  lemma SharedContents(fifo: StaticBuffer, view: ConsumingBuffer, memory: seq<byte>, size: nat, sizes: seq<nat>)
    requires fifo.Valid() && view.Valid() && view.data == fifo.data
    requires Sum(sizes) <= size <= |memory| && Undisturbed(size, sizes)
    requires fifo.data[..] == AllMoved(memory, size, sizes)
    requires view.start == Sum(sizes) && view.size == fifo.size == size - Sum(sizes)
    ensures view.Contents() == fifo.Contents()
  {
    hide AllMoved, Undisturbed, Sum;
    SharedViewIntact(memory, size, sizes);
    assert view.Contents() == view.data[..][view.start..size];
    assert fifo.Contents() == fifo.data[..][..fifo.size];
  }

  lemma SkipNothing(all: seq<byte>)
    ensures Skip(all, 0) == all
  {
  }
}
