/** Order of the merged output: sorted between two addFile calls, a sorted merge when all files come first, and a
    round robin among equal keys. Also the exact cost of the driver loop `while (!source.isDone())`. */
module SortedMerge {
  import opened Bytes
  import opened PcapFormat
  import opened Merge
  import opened MergeRuns

  ghost predicate Ordered(packets: seq<Record>) {
    forall j, k :: 0 <= j < k < |packets| ==> Key(packets[j]) <= Key(packets[k])
  }

  ghost predicate AllOrdered(files: seq<seq<Record>>) {
    forall i :: 0 <= i < |files| ==> Ordered(files[i])
  }

  ghost predicate Before(r: Record, tail: seq<Record>) {
    tail != [] ==> Key(r) <= Key(tail[0])
  }

  /** Unread packets are ordered, and no pending head is greater than what follows it in its file. */
  ghost predicate Ahead(s: State) {
    && AllOrdered(s.tails)
    && (forall h <- s.queue :: h.id < |s.tails| ==> Before(h.record, s.tails[h.id]))
    && (s.current.Some? && s.current.value.id < |s.tails| ==>
          Before(s.current.value.record, s.tails[s.current.value.id]))
  }

  /** Every key still to come is at least k. */
  ghost predicate Floor(s: State, k: nat) {
    && (forall h <- s.queue :: k <= Key(h.record))
    && (s.current.Some? ==> k <= Key(s.current.value.record))
  }

  // ----- steps -----

  lemma RequeueAhead(s: State, k: nat)
    requires Valid(s) && Ahead(s) && Floor(s, k)
    ensures var t := Requeue(s);
      && QueueValid(t) && |t.tails| == |s.tails| && AllOrdered(t.tails)
      && (forall h <- t.queue :: Before(h.record, t.tails[h.id]) && k <= Key(h.record))
  {
    hide Key, Insert;
    if s.current.Some? {
      var c := s.current.value;
      RefillQueue(s, c.id);
      if s.tails[c.id] != [] {
        InsertSorted(s.queue, Head(s.tails[c.id][0], c.id));
      }
    }
  }

  lemma ReadNextAhead(s: State, k: nat)
    requires Valid(s) && Ahead(s) && Floor(s, k)
    ensures var (r, out) := ReadNext(s);
      Valid(r) && Ahead(r) && (out.Some? ==> k <= Key(out.value.record) && Floor(r, Key(out.value.record)))
  {
    hide Key, Requeue, Valid;
    RequeueAhead(s, k);
    ReadNextValid(s);
  }

  /** The deliveries of n calls of readNextPacket. */
  function Burst(s: State, n: nat): seq<Head>
    decreases n
  {
    if n == 0 then []
    else
      var (r, out) := ReadNext(s);
      Delivery(out) + Burst(r, n - 1)
  }

  /** The state after n calls. */
  function After(s: State, n: nat): State
    decreases n
  {
    if n == 0 then s else After(ReadNext(s).0, n - 1)
  }

  lemma NoFloor(s: State)
    ensures Floor(s, 0)
  {
  }

  lemma {:induction false} BurstSorted(s: State, n: nat, k: nat)
    requires Valid(s) && Ahead(s) && Floor(s, k)
    ensures Sorted(Burst(s, n))
    ensures forall h <- Burst(s, n) :: k <= Key(h.record)
    decreases n
  {
    hide Key, ReadNext, Valid, Ahead, Floor;
    if n == 0 {
    } else {
      var (r, out) := ReadNext(s);
      ReadNextAhead(s, k);
      if out.Some? {
        BurstSorted(r, n - 1, Key(out.value.record));
      } else {
        SilentNext(s, k);
        BurstSorted(r, n - 1, k);
      }
    }
  }

  lemma SilentNext(s: State, k: nat)
    requires Floor(s, k) && ReadNext(s).1.None?
    ensures Floor(ReadNext(s).0, k)
  {
  }

  // ----- runs -----

  lemma {:induction false} OfReaderHas(heads: seq<Head>, h: Head)
    requires h in heads
    ensures h.record in OfReader(heads, h.id)
  {
    if heads[0] != h {
      OfReaderHas(heads[1..], h);
    }
  }

  lemma PendingBefore(t: Trace, h: Head)
    requires Accounted(t) && AllOrdered(t.files)
    requires h in t.delivered || h in t.state.queue
    requires h.id < |t.files|
    ensures Before(h.record, t.state.tails[h.id])
  {
    hide Key;
    var i := h.id;
    assert Conserved(t, i);
    var seen := OfReader(t.delivered, i) + OfReader(t.state.queue, i);
    OfReaderConcat(t.delivered, t.state.queue, i);
    OfReaderHas(t.delivered + t.state.queue, h);
    var j :| 0 <= j < |seen| && seen[j] == h.record;
    assert t.files[i][j] == h.record;
    if t.state.tails[i] != [] {
      assert t.files[i][|seen|] == t.state.tails[i][0];
    }
  }

  lemma RunAhead(t: Trace)
    requires Accounted(t) && AllOrdered(t.files)
    ensures Ahead(t.state)
  {
    hide Key, OfReader, OfKey;
    forall i | 0 <= i < |t.files|
      ensures Ordered(t.state.tails[i])
    {
      assert Conserved(t, i);
      var n := |t.files[i]| - |t.state.tails[i]|;
      assert t.state.tails[i] == t.files[i][n..];
    }
    forall h | h in t.delivered || h in t.state.queue
      ensures Before(h.record, t.state.tails[h.id])
    {
      PendingBefore(t, h);
    }
  }

  function Nexts(n: nat): seq<Op> {
    seq(n, _ => Next)
  }

  lemma {:induction false} NextsDeliverBurst(t: Trace, ops: seq<Op>, n: nat)
    requires t == Run(ops)
    ensures Run(ops + Nexts(n)).delivered == t.delivered + Burst(t.state, n)
    ensures Run(ops + Nexts(n)).state == After(t.state, n)
    decreases n
  {
    hide Run, ReadNext, AddFile;
    if n == 0 {
      assert ops + Nexts(0) == ops;
    } else {
      var t' := Perform(t, Next);
      RunThen(ops, Next);
      NextsDeliverBurst(t', ops + [Next], n - 1);
      assert ops + Nexts(n) == ops + [Next] + Nexts(n - 1);
    }
  }

  /** Main result: if every file added so far is ordered by key, so is whatever is read until the next addFile. */
  lemma SortedBetweenAdds(ops: seq<Op>, n: nat)
    requires AllOrdered(Added(ops))
    ensures Sorted(Burst(Run(ops).state, n))
    ensures Run(ops + Nexts(n)).delivered == Run(ops).delivered + Burst(Run(ops).state, n)
  {
    hide Accounted, Ahead, Floor, Valid, Sorted, AllOrdered;
    EveryRunAccounted(ops);
    FilesAreAdded(ops);
    RunAhead(Run(ops));
    AccountedValid(Run(ops));
    NoFloor(Run(ops).state);
    BurstSorted(Run(ops).state, n, 0);
    NextsDeliverBurst(Run(ops), ops, n);
  }

  lemma AccountedValid(t: Trace)
    requires Accounted(t)
    ensures Valid(t.state) && |t.files| == |t.state.tails|
  {
  }

  // ----- the driver loop -----

  datatype Driven = Driven(calls: nat, delivered: seq<Head>, callbacks: nat, last: State)

  /** A call hands out one pending packet, or finds none and leaves the source done. */
  lemma ReadNextPending(s: State)
    requires Valid(s)
    ensures var (r, out) := ReadNext(s);
      && Valid(r)
      && (out.Some? ==> Pending(r) == Pending(s) - 1 && !IsDone(r))
      && (out.None? ==> Pending(r) == 0 == Pending(s) && IsDone(r))
  {
    hide Key, Refill;
    ReadNextValid(s);
    if s.current.Some? {
      RefillPending(s, s.current.value.id);
    }
    var (r, out) := ReadNext(s);
    if out.None? {
      DoneIsEmpty(r);
    }
  }

  /** `while (!source.isDone()) { source.readNextPacket(); }`; a callback fires on every empty-handed call. */
  function Drive(s: State): Driven
    requires Valid(s)
    decreases Pending(s), !IsDone(s)
  {
    if IsDone(s) then Driven(0, [], 0, s)
    else
      var (r, out) := ReadNext(s);
      ReadNextPending(s);
      var d := Drive(r);
      Driven(d.calls + 1, Delivery(out) + d.delivered, d.callbacks + (if out.None? then 1 else 0), d.last)
  }

  /** Main result: from any reachable state the driver makes one call per pending packet and one more to notice the
      end, and the done callback fires exactly once, unless the source was done already. */
  lemma {:induction false} DriverCost(s: State)
    requires Valid(s)
    ensures var d := Drive(s);
      && d.calls == (if IsDone(s) then 0 else Pending(s) + 1)
      && |d.delivered| == Pending(s)
      && d.callbacks == (if IsDone(s) then 0 else 1)
      && IsDone(d.last)
      && d.delivered == Burst(s, d.calls)
      && d.last == After(s, d.calls)
    decreases Pending(s), !IsDone(s)
  {
    hide ReadNext, Valid, Pending;
    if IsDone(s) {
      DoneIsEmpty(s);
    } else {
      ReadNextPending(s);
      DriverCost(ReadNext(s).0);
    }
  }

  /** Without the isDone guard the callback is not a one-time signal: every further call fires it again. */
  lemma CallbackRepeats(s: State)
    requires Valid(s) && IsDone(s)
    ensures ReadNext(s) == (s, None)
  {
  }

  // ----- all files first -----

  function Adds(files: seq<seq<Record>>): seq<Op> {
    seq(|files|, i requires 0 <= i < |files| => Add(files[i]))
  }

  lemma {:induction false} AddsOnly(files: seq<seq<Record>>)
    ensures Added(Adds(files)) == files && Run(Adds(files)).delivered == []
    ensures Run(Adds(files)).state.current.None?
  {
    hide Refill;
    if files == [] {
    } else {
      var n := |files| - 1;
      assert Adds(files)[..n] == Adds(files[..n]);
      AddsOnly(files[..n]);
      var s := Run(Adds(files[..n])).state;
      RefillShape(s.(tails := s.tails + [files[n]]), |s.tails|);
    }
  }

  lemma AllAdded(files: seq<seq<Record>>)
    ensures var s := Run(Adds(files)).state;
      Valid(s) && Pending(s) == Total(files) && s.current.None?
  {
    hide Run, Valid, Pending, OfReader, OfKey;
    AddsOnly(files);
    EveryRunAccounted(Adds(files));
    FilesAreAdded(Adds(files));
  }

  /** What the program delivers that adds all files and then drives the source until it is done. */
  function MergeOf(files: seq<seq<Record>>): seq<Head> {
    AllAdded(files);
    Drive(Run(Adds(files)).state).delivered
  }

  /** MergeOf is what a run delivers that ends with the source done. */
  lemma MergeIsRun(files: seq<seq<Record>>) returns (ops: seq<Op>, n: nat)
    ensures ops == Adds(files) + Nexts(n) && Added(ops) == files
    ensures Run(ops).delivered == MergeOf(files) == Burst(Run(Adds(files)).state, n)
    ensures IsDone(Run(ops).state)
  {
    hide ReadNext, Valid, Run;
    AllAdded(files);
    AddsOnly(files);
    var s := Run(Adds(files)).state;
    n := Drive(s).calls;
    ops := Adds(files) + Nexts(n);
    DriverCost(s);
    NextsDeliverBurst(Run(Adds(files)), Adds(files), n);
    NextsAddNothing(Adds(files), n);
  }

  /** A sorted sequence is sorted within each file. */
  lemma {:induction false} OfReaderSorted(heads: seq<Head>, i: nat, k: nat)
    requires Sorted(heads) && forall h <- heads :: k <= Key(h.record)
    ensures Ordered(OfReader(heads, i)) && forall r <- OfReader(heads, i) :: k <= Key(r)
  {
    hide Key;
    if heads != [] {
      assert heads == [heads[0]] + heads[1..];
      forall h | h in heads[1..]
        ensures Key(heads[0].record) <= Key(h.record)
      {
        var j :| 0 <= j < |heads[1..]| && heads[1..][j] == h;
        assert heads[j + 1] == h;
      }
      OfReaderSorted(heads[1..], i, Key(heads[0].record));
    }
  }

  lemma SortedNeedsOrdered(heads: seq<Head>, files: seq<seq<Record>>)
    requires Sorted(heads) && forall i :: 0 <= i < |files| ==> OfReader(heads, i) == files[i]
    ensures AllOrdered(files)
  {
    hide OfReader, Sorted, Ordered;
    forall i | 0 <= i < |files|
      ensures Ordered(files[i])
    {
      OfReaderSorted(heads, i, 0);
    }
  }

  /** Main result: with all files first, the output holds each file's packets in file order and nothing else, and it
      is sorted by key exactly when every file is. */
  lemma SortedMergeOf(files: seq<seq<Record>>)
    ensures forall h <- MergeOf(files) :: h.id < |files|
    ensures forall i :: 0 <= i < |files| ==> OfReader(MergeOf(files), i) == files[i]
    ensures |MergeOf(files)| == Total(files)
    ensures Sorted(MergeOf(files)) <==> AllOrdered(files)
  {
    hide Run, OfReader, MergeOf, Sorted, AllOrdered, Burst;
    var ops, n := MergeIsRun(files);
    Interleaving(ops);
    if AllOrdered(files) {
      AddsOnly(files);
      SortedBetweenAdds(Adds(files), n);
    }
    if Sorted(MergeOf(files)) {
      SortedNeedsOrdered(MergeOf(files), files);
    }
  }

  lemma {:induction false} NextsAddNothing(ops: seq<Op>, n: nat)
    ensures Added(ops + Nexts(n)) == Added(ops)
  {
    if n == 0 {
      assert ops + Nexts(0) == ops;
    } else {
      NextsAddNothing(ops, n - 1);
      assert (ops + Nexts(n))[..|ops| + n - 1] == ops + Nexts(n - 1);
    }
  }
}
