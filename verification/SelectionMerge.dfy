/** The merge without a sorted queue: keep the heads of all files in the order of their arrival and always deliver the
    first one of least key. For any files, ordered or not, the multimap delivers exactly this sequence. */
module SelectionMerge {
  import opened Bytes
  import opened PcapFormat
  import opened Merge
  import opened MergeRuns
  import opened SortedMerge
  import opened MergeOrder

  /** The first of the heads that have the least key. */
  function Earliest(waiting: seq<Head>): (e: Head)
    requires waiting != []
    ensures e in waiting
    ensures forall h <- waiting :: Key(e.record) <= Key(h.record)
  {
    if |waiting| == 1 then waiting[0]
    else
      var e := Earliest(waiting[1..]);
      if Key(e.record) < Key(waiting[0].record) then e else waiting[0]
  }

  /** All heads but those of reader i. */
  function Without(heads: seq<Head>, i: nat): (r: seq<Head>)
    ensures |r| <= |heads|
    ensures (exists h <- heads :: h.id == i) ==> |r| < |heads|
  {
    if heads == [] then []
    else (if heads[0].id == i then [] else [heads[0]]) + Without(heads[1..], i)
  }

  /** Deliver the earliest of the waiting heads; the next packet of its file, if any, then waits behind all others. */
  function Select(waiting: seq<Head>, tails: seq<seq<Record>>): seq<Head>
    decreases |waiting| + Total(tails)
  {
    if waiting == [] then []
    else
      var h := Earliest(waiting);
      [h] + Select(Without(waiting, h.id) + HeadAt(tails, h.id, 0), Advance(tails, h.id))
  }

  /** The packets behind the heads, once file i has a new head. */
  function Advance(tails: seq<seq<Record>>, i: nat): (r: seq<seq<Record>>)
    ensures |HeadAt(tails, i, 0)| + Total(r) == Total(tails)
  {
    if i < |tails| && tails[i] != [] then
      TotalUpdate(tails, i, tails[i][1..]);
      tails[i := tails[i][1..]]
    else tails
  }

  /** All files from the start. */
  function Selection(files: seq<seq<Record>>): seq<Head> {
    Select(FirstHeads(files), Behind(files))
  }

  /** What lies behind the first packet of each file. */
  function Behind(files: seq<seq<Record>>): seq<seq<Record>> {
    seq(|files|, i requires 0 <= i < |files| => if files[i] == [] then [] else files[i][1..])
  }

  // ----- the sorted queue stands for the waiting heads -----

  ghost predicate StandsFor(queue: seq<Head>, waiting: seq<Head>) {
    forall k: nat :: OfKey(queue, k) == OfKey(waiting, k)
  }

  lemma {:induction false} OfKeyHas(heads: seq<Head>, h: Head)
    requires h in heads
    ensures OfKey(heads, Key(h.record)) != []
  {
    hide Key;
    if heads[0] != h {
      OfKeyHas(heads[1..], h);
    }
  }

  lemma {:induction false} EarliestIsFirst(waiting: seq<Head>)
    requires waiting != []
    ensures var e := Earliest(waiting); OfKey(waiting, Key(e.record)) != [] && OfKey(waiting, Key(e.record))[0] == e
  {
    hide Key;
    if |waiting| == 1 {
      assert waiting[1..] == [];
    } else {
      EarliestIsFirst(waiting[1..]);
    }
  }

  lemma FrontIsEarliest(queue: seq<Head>, waiting: seq<Head>)
    requires Sorted(queue) && StandsFor(queue, waiting)
    ensures queue == [] <==> waiting == []
    ensures queue != [] ==> queue[0] == Earliest(waiting)
  {
    hide Key, OfKey, Earliest;
    if waiting != [] {
      var e := Earliest(waiting);
      EarliestIsFirst(waiting);
      OfKeyFrom(queue, Key(e.record));
    }
    if queue != [] {
      var q := queue[0];
      QueueHead(queue, Key(q.record));
      OfKeyFrom(waiting, Key(q.record));
    }
  }

  lemma {:induction false} WithoutOfKey(heads: seq<Head>, i: nat, k: nat)
    ensures OfKey(Without(heads, i), k) == Without(OfKey(heads, k), i)
  {
    hide Key;
    if heads != [] {
      WithoutOfKey(heads[1..], i, k);
      var rest := Without(heads[1..], i);
      OfKeyConcat([heads[0]], rest, k);
      OneHead(heads[0], 0, k);
      assert [] + rest == rest;
      var later := OfKey(heads[1..], k);
      assert ([heads[0]] + later)[1..] == later && [] + later == later;
    }
  }

  lemma {:induction false} WithoutNone(heads: seq<Head>, i: nat)
    requires forall h <- heads :: h.id != i
    ensures Without(heads, i) == heads
  {
    if heads != [] {
      WithoutNone(heads[1..], i);
    }
  }

  /** Taking the front of the queue is taking its reader's head out of the waiting ones. */
  lemma PopStandsFor(s: State, waiting: seq<Head>)
    requires QueueValid(s) && s.queue != [] && StandsFor(s.queue, waiting)
    ensures StandsFor(s.queue[1..], Without(waiting, s.queue[0].id))
  {
    hide Key, OfKey;
    var i := s.queue[0].id;
    WithoutNone(s.queue[1..], i);
    assert Without(s.queue, i) == s.queue[1..];
    forall k: nat
      ensures OfKey(s.queue[1..], k) == OfKey(Without(waiting, i), k)
    {
      WithoutOfKey(s.queue, i, k);
      WithoutOfKey(waiting, i, k);
    }
  }

  lemma RefillStandsFor(s: State, i: nat, waiting: seq<Head>)
    requires QueueValid(s) && i < |s.tails| && StandsFor(s.queue, waiting)
    ensures StandsFor(Refill(s, i).queue, waiting + HeadAt(s.tails, i, 0))
    ensures Refill(s, i).tails == Advance(s.tails, i)
  {
    hide Key, OfKey, Insert;
    forall k: nat
      ensures OfKey(Refill(s, i).queue, k) == OfKey(waiting + HeadAt(s.tails, i, 0), k)
    {
      RefillOfKey(s, i, k);
      OfKeyConcat(waiting, HeadAt(s.tails, i, 0), k);
    }
  }

  lemma {:induction false} DriveSelects(s: State, waiting: seq<Head>)
    requires Valid(s) && StandsFor(Requeue(s).queue, waiting)
    ensures Drive(s).delivered == Select(waiting, Requeue(s).tails)
    decreases Pending(s), !IsDone(s)
  {
    hide Key, Valid, Pending, QueueValid, StandsFor, Refill, Earliest, Without, Advance, Total;
    var t := Requeue(s);
    RequeueQueues(s);
    QueueSorted(t);
    FrontIsEarliest(t.queue, waiting);
    if t.queue != [] {
      var r, h := ReadNext(s).0, t.queue[0];
      ReadNextPending(s);
      PopQueue(t);
      PopStandsFor(t, waiting);
      RefillStandsFor(r, h.id, Without(waiting, h.id));
      DriveSelects(r, Without(waiting, h.id) + HeadAt(t.tails, h.id, 0));
    }
  }

  lemma QueueSorted(s: State)
    requires QueueValid(s)
    ensures Sorted(s.queue) && (s.queue != [] ==> s.queue[0].id < |s.tails|)
  {
  }

  /** After the addFile calls, what is behind the head of each file is unread. */
  lemma TailsAfterAdds(t: Trace, i: nat)
    requires Accounted(t) && t.delivered == [] && t.state.current.None? && i < |t.files|
    ensures t.state.tails[i] == if t.files[i] == [] then [] else t.files[i][1..]
  {
    hide Key, OfKey;
    assert Conserved(t, i);
    OneOfReader(t.state.queue, i);
    if t.state.tails[i] != [] {
      assert Live(t.state, i);
      var h :| h in t.state.queue && h.id == i;
      OfReaderHas(t.state.queue, h);
    }
    assert t.files[i] == OfReader(t.state.queue, i) + t.state.tails[i];
  }

  lemma {:induction false} OneOfReader(heads: seq<Head>, i: nat)
    requires forall j, k :: 0 <= j < k < |heads| ==> heads[j].id != heads[k].id
    ensures |OfReader(heads, i)| <= 1
  {
    if heads != [] {
      if heads[0].id == i {
        OfReaderNone(heads[1..], i);
      } else {
        OneOfReader(heads[1..], i);
      }
    }
  }

  /** After the addFile calls the queue holds the first packets, and the rest is unread. */
  lemma AddsStandFor(files: seq<seq<Record>>)
    ensures var s := Run(Adds(files)).state;
      StandsFor(s.queue, FirstHeads(files)) && s.tails == Behind(files) && s.current.None?
  {
    hide Run, Adds, OfKey, FirstHeads, Valid, Conserved;
    AddsOnly(files);
    AddsQueueFirstHeads(files);
    EveryRunAccounted(Adds(files));
    FilesAreAdded(Adds(files));
    var t := Run(Adds(files));
    forall k: nat
      ensures OfKey(t.state.queue, k) == OfKey(FirstHeads(files), k)
    {
      assert FirstComeFirstServed(t, k);
      OfKeyNone([], k);
    }
    forall i | 0 <= i < |files|
      ensures t.state.tails[i] == Behind(files)[i]
    {
      TailsAfterAdds(t, i);
    }
  }

  /** Main result: for any files, the merge delivers what selecting the earliest head of least key delivers. */
  lemma MergeIsSelection(files: seq<seq<Record>>)
    ensures MergeOf(files) == Selection(files)
  {
    hide Run, Adds, FirstHeads, Drive, Select, Pending, StandsFor, Behind, Valid;
    AllAdded(files);
    AddsStandFor(files);
    DriveSelects(Run(Adds(files)).state, FirstHeads(files));
  }
}
