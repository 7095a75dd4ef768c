/** The exact order of the merged output, in terms of the files alone: equal keys leave in the order in which their
    packets became the heads of their files, and for ordered files this leaves one sequence only. Also, exactly when the
    output is still sorted though files are added on the way. */
module MergeOrder {
  import opened Bytes
  import opened PcapFormat
  import opened Merge
  import opened MergeRuns
  import opened SortedMerge

  /** The first packet of every file that has one, in the order of the addFile calls. */
  function FirstHeads(files: seq<seq<Record>>): seq<Head> {
    if files == [] then []
    else
      var n := |files| - 1;
      FirstHeads(files[..n]) + HeadAt(files, n, 0)
  }

  /** Packet `at` of file i, if there is one. */
  function HeadAt(files: seq<seq<Record>>, i: nat, at: nat): seq<Head> {
    if i < |files| && at < |files[i]| then [Head(files[i][at], i)] else []
  }

  /** For every delivery in turn, the next packet of the same file, if there is one. */
  function Successors(out: seq<Head>, files: seq<seq<Record>>): seq<Head> {
    if out == [] then []
    else
      var id := out[|out| - 1].id;
      Successors(out[..|out| - 1], files) + HeadAt(files, id, |OfReader(out, id)|)
  }

  /** The packets in the order in which they become heads of their files when `out` is delivered. */
  function Arrivals(out: seq<Head>, files: seq<seq<Record>>): seq<Head> {
    FirstHeads(files) + Successors(out, files)
  }

  // ----- the queue's history is the arrivals -----

  lemma {:induction false} AddsQueueFirstHeads(files: seq<seq<Record>>)
    ensures Run(Adds(files)).queuedLog == FirstHeads(files)
  {
    hide Accounted, AddFile;
    if files != [] {
      var n := |files| - 1;
      assert Adds(files)[..n] == Adds(files[..n]);
      AddsQueueFirstHeads(files[..n]);
      EveryRunAccounted(Adds(files[..n]));
      AccountedValid(Run(Adds(files[..n])));
      FilesAreAdded(Adds(files[..n]));
      AddsOnly(files[..n]);
    }
  }

  /** The deliveries whose readers have been queued again. */
  function Requeued(t: Trace): seq<Head> {
    if t.state.current.Some? && t.delivered != [] then t.delivered[..|t.delivered| - 1] else t.delivered
  }

  /** What a reader that is not queued would queue next is the next packet of its file. */
  lemma EnteringIsNext(t: Trace, i: nat)
    requires Accounted(t) && i < |t.files| && !Queued(t.state, i)
    ensures Entering(t.state, i) == HeadAt(t.files, i, |OfReader(t.delivered, i)|)
  {
    hide OfReader, OfKey, Valid;
    assert Conserved(t, i);
    OfReaderNone(t.state.queue, i);
    assert t.files[i] == OfReader(t.delivered, i) + t.state.tails[i];
  }

  /** One call of readNextPacket first queues the successor of the packet handed out last. */
  lemma NextQueuesSuccessor(t: Trace)
    requires Accounted(t) && t.queuedLog == Arrivals(Requeued(t), t.files)
    ensures var t' := Perform(t, Next);
      t'.queuedLog == Arrivals(t.delivered, t.files) && t'.queuedLog == Arrivals(Requeued(t'), t'.files)
  {
    hide OfReader, OfKey, Requeue, QueueValid, Conserved, FirstComeFirstServed, Entering, FirstHeads;
    var d := t.delivered;
    if t.state.current.Some? {
      EnteringIsNext(t, t.state.current.value.id);
      Associative(FirstHeads(t.files), Successors(d[..|d| - 1], t.files), Entering(t.state, t.state.current.value.id));
    }
    assert Requeued(Perform(t, Next)) == d;
  }

  lemma NothingRequeued(t: Trace, files: seq<seq<Record>>)
    requires t.delivered == []
    ensures Arrivals(Requeued(t), files) == FirstHeads(files)
  {
  }

  lemma {:induction false} LogIsArrivals(files: seq<seq<Record>>, n: nat)
    ensures var t := Run(Adds(files) + Nexts(n)); t.queuedLog == Arrivals(Requeued(t), files)
  {
    hide Run, Perform, Accounted, Arrivals, Requeued;
    var ops := Adds(files) + Nexts(n);
    AddsOnly(files);
    if n == 0 {
      assert ops == Adds(files);
      AddsQueueFirstHeads(files);
      NothingRequeued(Run(ops), files);
    } else {
      var before := Adds(files) + Nexts(n - 1);
      assert ops == before + [Next];
      LogIsArrivals(files, n - 1);
      EveryRunAccounted(before);
      NextsAddNothing(Adds(files), n - 1);
      FilesAreAdded(before);
      RunThen(before, Next);
      NextQueuesSuccessor(Run(before));
      FilesAreAdded(ops);
      NextsAddNothing(Adds(files), n);
    }
  }

  /** Main result: in the merged output, the packets of one key stand in the order of their arrival, for any files. */
  lemma EqualKeysByArrival(files: seq<seq<Record>>, k: nat)
    ensures OfKey(MergeOf(files), k) == OfKey(Arrivals(MergeOf(files), files), k)
  {
    hide Run, OfKey, MergeOf, Arrivals, Valid, Conserved, Burst, Pending;
    var ops, n := MergeIsRun(files);
    LogIsArrivals(files, n);
    EveryRunAccounted(ops);
    assert FirstComeFirstServed(Run(ops), k);
    OfKeyNone(Run(ops).state.queue, k);
  }

  // ----- there is no other such sequence -----

  /** A sorted sequence that holds each file in order, nothing else, and equal keys by arrival. */
  ghost predicate StableMerge(out: seq<Head>, files: seq<seq<Record>>) {
    && Sorted(out)
    && (forall h <- out :: h.id < |files|)
    && (forall i :: 0 <= i < |files| ==> OfReader(out, i) == files[i])
    && (forall k: nat :: OfKey(out, k) == OfKey(Arrivals(out, files), k))
  }

  lemma {:induction false} SuccessorsPrefix(done: seq<Head>, out: seq<Head>, files: seq<seq<Record>>)
    requires done <= out
    ensures Successors(done, files) <= Successors(out, files)
  {
    if done != out {
      SuccessorsPrefix(done, out[..|out| - 1], files);
    }
  }

  lemma OfKeyPrefix(a: seq<Head>, b: seq<Head>, k: nat)
    requires a <= b
    ensures OfKey(a, k) <= OfKey(b, k) && OfKey(b, k) == OfKey(a, k) + OfKey(b[|a|..], k)
  {
    hide OfKey;
    assert b == a + b[|a|..];
    OfKeyConcat(a, b[|a|..], k);
  }

  lemma {:induction false} OfKeyFrom(heads: seq<Head>, k: nat)
    requires OfKey(heads, k) != []
    ensures exists h <- heads :: Key(h.record) == k
    ensures Key(heads[0].record) == k ==> OfKey(heads, k)[0] == heads[0]
  {
    hide Key;
    if Key(heads[0].record) != k {
      OfKeyFrom(heads[1..], k);
    }
  }

  lemma {:induction false} OfReaderFrom(heads: seq<Head>, i: nat)
    requires OfReader(heads, i) != []
    ensures Head(OfReader(heads, i)[0], i) in heads
  {
    if heads[0].id != i {
      OfReaderFrom(heads[1..], i);
    }
  }

  /** What is queued for key k is what the sequence holds next for key k. */
  lemma QueueIsNext(u: Trace, out: seq<Head>, k: nat)
    requires u.delivered <= out && FirstComeFirstServed(u, k)
    requires u.queuedLog == Arrivals(u.delivered, u.files)
    requires OfKey(out, k) == OfKey(Arrivals(out, u.files), k)
    ensures OfKey(u.state.queue, k) <= OfKey(out[|u.delivered|..], k)
  {
    hide OfKey, Successors, FirstHeads;
    SuccessorsPrefix(u.delivered, out, u.files);
    OfKeyPrefix(u.queuedLog, Arrivals(out, u.files), k);
    OfKeyPrefix(u.delivered, out, k);
    var done, waiting, rest := OfKey(u.delivered, k), OfKey(u.state.queue, k), OfKey(out[|u.delivered|..], k);
    assert done + waiting <= done + rest;
    assert (done + waiting)[|done|..] == waiting && (done + rest)[|done|..] == rest;
  }

  /** The next packet of the sequence is queued. */
  lemma NextIsQueued(u: Trace, out: seq<Head>)
    requires u.delivered < out && out[|u.delivered|].id < |u.files| == |u.state.tails|
    requires Conserved(u, out[|u.delivered|].id)
    requires OfReader(out, out[|u.delivered|].id) == u.files[out[|u.delivered|].id]
    requires u.state.tails[out[|u.delivered|].id] != [] ==> Queued(u.state, out[|u.delivered|].id)
    ensures out[|u.delivered|] in u.state.queue
  {
    hide OfReader;
    var h, rest := out[|u.delivered|], out[|u.delivered|..];
    var i, q := h.id, u.state.queue;
    assert out == u.delivered + rest && rest == [h] + rest[1..];
    OfReaderConcat(u.delivered, rest, i);
    OfReaderConcat([h], rest[1..], i);
    OneHead(h, i, 0);
    Associative(OfReader(u.delivered, i), OfReader(q, i), u.state.tails[i]);
    var pending := OfReader(q, i) + u.state.tails[i];
    assert OfReader(u.delivered, i) + pending == OfReader(u.delivered, i) + OfReader(rest, i);
    SameFront(OfReader(u.delivered, i), pending, OfReader(rest, i));
    assert pending[0] == h.record;
    if OfReader(q, i) == [] {
      var g :| g in q && g.id == i;
      OfReaderHas(q, g);
    }
    OfReaderFrom(q, i);
  }

  lemma SameFront<T>(a: seq<T>, b: seq<T>, c: seq<T>)
    requires a + b == a + c
    ensures b == c
  {
    assert (a + b)[|a|..] == b && (a + c)[|a|..] == c;
  }

  /** The least queued head is the next packet of the sequence. */
  lemma PopIsNext(u: Trace, out: seq<Head>)
    requires QueueValid(u.state) && |u.files| == |u.state.tails| && u.state.queue != []
    requires forall i :: 0 <= i < |u.files| ==> Conserved(u, i)
    requires forall k: nat :: FirstComeFirstServed(u, k)
    requires forall i :: 0 <= i < |u.files| && u.state.tails[i] != [] ==> Queued(u.state, i)
    requires u.queuedLog == Arrivals(u.delivered, u.files)
    requires StableMerge(out, u.files) && u.delivered <= out
    ensures u.delivered + [u.state.queue[0]] <= out
  {
    hide Key, OfKey, OfReader, Arrivals, Queued, Conserved, FirstComeFirstServed;
    var q, n := u.state.queue[0], |u.delivered|;
    var k, rest := Key(q.record), out[|u.delivered|..];
    assert FirstComeFirstServed(u, k);
    QueueIsNext(u, out, k);
    QueueHead(u.state.queue, k);
    OfKeyFrom(rest, k);
    var g :| g in rest && Key(g.record) == k;
    var j :| 0 <= j < |rest| && rest[j] == g;
    assert out[n + j] == g && out[n] == rest[0];
    assert Key(out[n].record) <= k;
    assert out[n].id < |u.files|;
    NextIsQueued(u, out);
    assert k <= Key(out[n].record);
    assert out[..n + 1] == u.delivered + [q];
  }

  lemma QueueHead(heads: seq<Head>, k: nat)
    requires heads != [] && k == Key(heads[0].record)
    ensures OfKey(heads, k) != [] && OfKey(heads, k)[0] == heads[0]
  {
  }

  lemma StepFollows(t: Trace, out: seq<Head>)
    requires Accounted(t) && t.queuedLog == Arrivals(Requeued(t), t.files)
    requires StableMerge(out, t.files) && t.delivered <= out
    ensures Perform(t, Next).delivered <= out
  {
    hide OfKey, OfReader, Arrivals, Requeue, StableMerge, Conserved, FirstComeFirstServed, Entering, QueueValid, Queued,
      Requeued;
    var t' := Perform(t, Next);
    var u := t.(state := Requeue(t.state), queuedLog := t'.queuedLog);
    RequeueKeeps(t, u);
    RequeueQueues(t.state);
    NextQueuesSuccessor(t);
    if u.state.queue != [] {
      PopIsNext(u, out);
    }
  }

  lemma {:induction false} RunFollows(files: seq<seq<Record>>, out: seq<Head>, n: nat)
    requires StableMerge(out, files)
    ensures Run(Adds(files) + Nexts(n)).delivered <= out
  {
    hide Run, Perform, Accounted, StableMerge, Arrivals, Requeued;
    var ops := Adds(files) + Nexts(n);
    if n == 0 {
      assert ops == Adds(files);
      AddsOnly(files);
    } else {
      var before := Adds(files) + Nexts(n - 1);
      assert ops == before + [Next];
      RunFollows(files, out, n - 1);
      LogIsArrivals(files, n - 1);
      EveryRunAccounted(before);
      AddsOnly(files);
      NextsAddNothing(Adds(files), n - 1);
      FilesAreAdded(before);
      RunThen(before, Next);
      StepFollows(Run(before), out);
    }
  }

  lemma SameFiles(a: seq<Head>, b: seq<Head>, files: seq<seq<Record>>)
    requires a <= b && forall h <- b :: h.id < |files|
    requires forall i :: 0 <= i < |files| ==> OfReader(a, i) == OfReader(b, i)
    ensures a == b
  {
    hide OfReader;
    var rest := b[|a|..];
    assert b == a + rest;
    if rest != [] {
      var i := rest[0].id;
      assert rest[0] in b;
      OfReaderConcat(a, rest, i);
      OfReaderHas(rest, rest[0]);
    }
  }

  /** Main result: what the merge delivers of ordered files is the one stable merge of them, and files that are not all
      ordered have none. */
  lemma MergeIsTheStableMerge(files: seq<seq<Record>>, out: seq<Head>)
    ensures StableMerge(out, files) <==> AllOrdered(files) && out == MergeOf(files)
  {
    hide Run, OfReader, OfKey, MergeOf, Arrivals, Burst, AllOrdered, Sorted;
    var merged := MergeOf(files);
    SortedMergeOf(files);
    forall k: nat
      ensures OfKey(merged, k) == OfKey(Arrivals(merged, files), k)
    {
      EqualKeysByArrival(files, k);
    }
    if StableMerge(out, files) {
      SortedNeedsOrdered(out, files);
      var ops, n := MergeIsRun(files);
      RunFollows(files, out, n);
      SameFiles(merged, out, files);
    }
  }

  // ----- files added on the way -----

  /** The last of `heads`, if there is one, has no key above k. */
  ghost predicate NoneAbove(heads: seq<Head>, k: nat) {
    heads != [] ==> Key(heads[|heads| - 1].record) <= k
  }

  /** Whenever a file is added that has packets, its first one is not before the last one delivered. */
  ghost predicate AddsInTime(ops: seq<Op>) {
    ops == [] ||
    var before := ops[..|ops| - 1];
    && AddsInTime(before)
    && match ops[|ops| - 1]
       case Add(packets) => packets != [] ==> NoneAbove(Run(before).delivered, Key(packets[0]))
       case Next => true
  }

  /** Deliveries so far are sorted, and nothing queued comes before the last one. */
  ghost predicate InOrder(t: Trace) {
    Sorted(t.delivered) && forall h <- t.state.queue :: NoneAbove(t.delivered, Key(h.record))
  }

  lemma RefillInOrder(s: State, i: nat, done: seq<Head>)
    requires QueueValid(s)
    requires forall h <- s.queue :: NoneAbove(done, Key(h.record))
    requires i < |s.tails| && s.tails[i] != [] ==> NoneAbove(done, Key(s.tails[i][0]))
    ensures forall h <- Refill(s, i).queue :: NoneAbove(done, Key(h.record))
  {
    hide Key, Insert, NoneAbove;
    if i < |s.tails| && s.tails[i] != [] {
      InsertSorted(s.queue, Head(s.tails[i][0], i));
    }
  }

  lemma AddInOrder(t: Trace, packets: seq<Record>)
    requires Accounted(t) && InOrder(t)
    requires packets != [] ==> NoneAbove(t.delivered, Key(packets[0]))
    ensures InOrder(Perform(t, Add(packets)))
  {
    hide Key, Refill, NoneAbove, Sorted, Conserved, FirstComeFirstServed;
    NewReader(t, packets);
    RefillInOrder(t.state.(tails := t.state.tails + [packets]), |t.state.tails|, t.delivered);
  }

  lemma NextInOrder(t: Trace)
    requires Accounted(t) && Ahead(t.state) && InOrder(t)
    ensures InOrder(Perform(t, Next))
  {
    hide Key, Requeue, Sorted, NoneAbove, Accounted, Ahead;
    RequeueInOrder(t);
    var s := Requeue(t.state);
    if s.queue != [] {
      AppendSorted(t.delivered, s.queue[0]);
      FrontNotAbove(t.delivered, s.queue);
    } else {
      assert t.delivered + [] == t.delivered;
    }
  }

  lemma RequeueInOrder(t: Trace)
    requires Accounted(t) && Ahead(t.state) && InOrder(t)
    ensures Sorted(Requeue(t.state).queue)
    ensures forall h <- Requeue(t.state).queue :: NoneAbove(t.delivered, Key(h.record))
  {
    hide Key, Refill, Conserved, FirstComeFirstServed, Pending, Sorted;
    if t.state.current.Some? {
      RefillInOrder(t.state, t.state.current.value.id, t.delivered);
    }
    RequeueQueues(t.state);
  }

  lemma FrontNotAbove(done: seq<Head>, queue: seq<Head>)
    requires queue != [] && Sorted(queue)
    ensures forall h <- queue[1..] :: NoneAbove(done + [queue[0]], Key(h.record))
  {
    hide Key;
  }

  lemma AppendSorted(heads: seq<Head>, h: Head)
    requires Sorted(heads) && NoneAbove(heads, Key(h.record))
    ensures Sorted(heads + [h])
  {
    hide Key;
  }

  lemma NothingInOrder()
    ensures InOrder(BEGIN)
  {
  }

  lemma {:induction false} InTimeInOrder(ops: seq<Op>)
    requires AllOrdered(Added(ops)) && AddsInTime(ops)
    ensures InOrder(Run(ops))
  {
    hide Accounted, Ahead, InOrder, Perform, NoneAbove;
    if ops == [] {
      NothingInOrder();
    } else {
      var before := ops[..|ops| - 1];
      assert forall i :: 0 <= i < |Added(before)| ==> Added(before)[i] == Added(ops)[i];
      InTimeInOrder(before);
      EveryRunAccounted(before);
      FilesAreAdded(before);
      RunAhead(Run(before));
      match ops[|ops| - 1]
      case Add(packets) => AddInOrder(Run(before), packets);
      case Next => NextInOrder(Run(before));
    }
  }

  /** Later calls only add files and deliveries. */
  lemma {:induction false} RunGrows(ops: seq<Op>, n: nat)
    requires n <= |ops|
    ensures Run(ops[..n]).delivered <= Run(ops).delivered && Added(ops[..n]) <= Added(ops)
  {
    hide AddFile, ReadNext;
    if n < |ops| {
      var before := ops[..|ops| - 1];
      RunGrows(before, n);
      assert before[..n] == ops[..n];
    } else {
      assert ops[..n] == ops;
    }
  }

  /** In a sorted run, the first packet of a file that was added after `done` had been delivered comes after it. */
  lemma LaterComesAfter(done: seq<Head>, out: seq<Head>, i: nat)
    requires done <= out && Sorted(out) && OfReader(out, i) != [] && forall h <- done :: h.id != i
    ensures NoneAbove(done, Key(OfReader(out, i)[0]))
  {
    hide Key, OfReader;
    var rest := out[|done|..];
    assert out == done + rest;
    OfReaderConcat(done, rest, i);
    OfReaderNone(done, i);
    OfReaderFrom(rest, i);
    var j :| 0 <= j < |rest| && rest[j] == Head(OfReader(rest, i)[0], i);
    assert out[|done| + j] == rest[j];
    if done != [] {
      assert out[|done| - 1] == done[|done| - 1];
    }
  }

  lemma {:induction false} SortedNeedsTime(ops: seq<Op>, n: nat)
    requires IsDone(Run(ops).state) && Sorted(Run(ops).delivered) && n <= |ops|
    ensures AddsInTime(ops[..n])
  {
    hide Run, Added, OfReader, Sorted, NoneAbove, IsDone;
    if n > 0 {
      var upto, before := ops[..n], ops[..n - 1];
      SortedNeedsTime(ops, n - 1);
      assert upto[..n - 1] == before;
      match ops[n - 1] {
        case Next =>
        case Add(packets) =>
          if packets != [] {
            var i := |Added(before)|;
            AddedLast(before, packets);
            assert upto == before + [Add(packets)];
            RunGrows(ops, n - 1);
            RunGrows(ops, n);
            Interleaving(ops);
            Interleaving(before);
            assert Added(ops)[i] == Added(upto)[i] == packets;
            LaterComesAfter(Run(before).delivered, Run(ops).delivered, i);
          }
      }
    }
  }

  lemma AddedLast(ops: seq<Op>, packets: seq<Record>)
    ensures Added(ops + [Add(packets)]) == Added(ops) + [packets]
  {
    assert (ops + [Add(packets)])[..|ops|] == ops;
  }

  /** Main result: a run that ends with the source done has delivered a sorted sequence exactly when every file is
      ordered and came in time. */
  lemma SortedRunIff(ops: seq<Op>)
    requires IsDone(Run(ops).state)
    ensures Sorted(Run(ops).delivered) <==> AllOrdered(Added(ops)) && AddsInTime(ops)
  {
    hide Run, Added, Sorted, AddsInTime, AllOrdered, IsDone, OfReader;
    if AllOrdered(Added(ops)) && AddsInTime(ops) {
      InTimeInOrder(ops);
    }
    if Sorted(Run(ops).delivered) {
      Interleaving(ops);
      SortedNeedsOrdered(Run(ops).delivered, Added(ops));
      SortedNeedsTime(ops, |ops|);
      assert ops[..|ops|] == ops;
    }
  }

  /** A file of one packet, added while nothing is queued. */
  lemma AddOne(s: State, r: Record)
    requires s.queue == []
    ensures AddFile(s, [r]) == State(s.tails + [[]], [Head(r, |s.tails|)], s.current)
  {
    var n := |s.tails|;
    assert [r][1..] == [];
    assert (s.tails + [[r]])[n := []] == s.tails + [[]];
    assert Insert([], Head(r, n)) == [Head(r, n)];
  }

  /** The only queued head, while the current reader has nothing left. */
  lemma TakeOne(s: State, h: Head)
    requires s.queue == [h] && forall i :: 0 <= i < |s.tails| ==> s.tails[i] == []
    ensures ReadNext(s) == (State(s.tails, [], Some(h)), Some(h))
  {
    assert [h][1..] == [];
  }

  /** A run over two ordered files, the second of which comes late: the output is not sorted. */
  lemma LateFileInput(a: Record, b: Record)
    requires Key(b) < Key(a)
    ensures var t := Run([Add([a]), Next, Add([b]), Next, Next]);
      IsDone(t.state) && AllOrdered(t.files) && t.delivered == [Head(a, 0), Head(b, 1)] && !Sorted(t.delivered)
  {
    hide Key, Run, AddFile, ReadNext;
    var o1: seq<Op>, o2: seq<Op> := [Add([a])], [Add([a]), Next];
    var o3: seq<Op>, o4: seq<Op> := o2 + [Add([b])], o2 + [Add([b]), Next];
    RunNothing();
    RunThen([], Add([a]));
    RunThen(o1, Next);
    RunThen(o2, Add([b]));
    RunThen(o3, Next);
    RunThen(o4, Next);
    assert [] + [Add([a])] == o1 && o1 + [Next] == o2 && o3 + [Next] == o4;
    AddOne(START, a);
    TakeOne(Run(o1).state, Head(a, 0));
    AddOne(Run(o2).state, b);
    TakeOne(Run(o3).state, Head(b, 1));
    assert Run(o4).state == State([[], []], [], Some(Head(b, 1)));
    TakeNone(Run(o4).state);
    var t := Run(o4 + [Next]);
    assert o4 + [Next] == [Add([a]), Next, Add([b]), Next, Next];
    assert t.delivered == [Head(a, 0), Head(b, 1)] && t.files == [[a], [b]];
    assert Key(t.delivered[1].record) < Key(t.delivered[0].record);
  }

  lemma RunNothing()
    ensures Run([]) == BEGIN
  {
  }

  lemma TakeNone(s: State)
    requires s.queue == [] && forall i :: 0 <= i < |s.tails| ==> s.tails[i] == []
    ensures ReadNext(s) == (State(s.tails, [], None), None)
  {
  }
}
