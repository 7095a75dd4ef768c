/** Whole runs of the merge: nothing is lost, duplicated or reordered within a file, and equal keys are first come,
    first served, for every interleaving of addFile and readNextPacket. */
module MergeRuns {
  import opened Bytes
  import opened PcapFormat
  import opened Merge

  datatype Op = Add(packets: seq<Record>) | Next

  /** A run so far: the state, the files added, the heads delivered, and the heads in the order they were queued. */
  datatype Trace = Trace(state: State, files: seq<seq<Record>>, delivered: seq<Head>, queuedLog: seq<Head>)

  const BEGIN := Trace(START, [], [], [])

  /** The head that Refill(s, i) puts into the queue, if any. */
  function Entering(s: State, i: nat): seq<Head> {
    if i >= |s.tails| || s.tails[i] == [] then [] else [Head(s.tails[i][0], i)]
  }

  /** The head that readNextPacket queues first, if any. */
  function Reentering(s: State): seq<Head> {
    if s.current.Some? then Entering(s, s.current.value.id) else []
  }

  function Delivery(out: Option<Head>): seq<Head> {
    if out.Some? then [out.value] else []
  }

  function Perform(t: Trace, op: Op): Trace {
    match op
    case Add(packets) =>
      var grown := t.state.(tails := t.state.tails + [packets]);
      Trace(AddFile(t.state, packets), t.files + [packets], t.delivered, t.queuedLog + Entering(grown, |t.state.tails|))
    case Next =>
      var (s', out) := ReadNext(t.state);
      Trace(s', t.files, t.delivered + Delivery(out), t.queuedLog + Reentering(t.state))
  }

  function Run(ops: seq<Op>): Trace {
    if ops == [] then BEGIN else Perform(Run(ops[..|ops| - 1]), ops[|ops| - 1])
  }

  lemma RunThen(ops: seq<Op>, op: Op)
    ensures Run(ops + [op]) == Perform(Run(ops), op)
  {
    hide Perform;
    assert (ops + [op])[..|ops|] == ops;
  }

  // ----- what every step accounts for -----

  function Total(tails: seq<seq<Record>>): nat {
    if tails == [] then 0 else Total(tails[..|tails| - 1]) + |tails[|tails| - 1]|
  }

  /** Packets not yet handed out. */
  function Pending(s: State): nat {
    |s.queue| + Total(s.tails)
  }

  /** Reader i's deliveries, then its queued head, then its unread packets, are its file. */
  ghost predicate Conserved(t: Trace, i: nat)
    requires i < |t.files| && i < |t.state.tails|
  {
    OfReader(t.delivered, i) + OfReader(t.state.queue, i) + t.state.tails[i] == t.files[i]
  }

  /** The heads with key k leave in the order in which they were queued. */
  ghost predicate FirstComeFirstServed(t: Trace, k: nat) {
    OfKey(t.delivered, k) + OfKey(t.state.queue, k) == OfKey(t.queuedLog, k)
  }

  ghost predicate Accounted(t: Trace) {
    && Valid(t.state)
    && |t.files| == |t.state.tails|
    && (forall h <- t.delivered :: h.id < |t.files|)
    && (forall i :: 0 <= i < |t.files| ==> Conserved(t, i))
    && (forall k: nat :: FirstComeFirstServed(t, k))
    && |t.delivered| + Pending(t.state) == Total(t.files)
    && (t.state.current.Some? ==> t.delivered != [] && t.delivered[|t.delivered| - 1] == t.state.current.value)
  }

  // ----- one refill -----

  lemma {:induction false} TotalUpdate(tails: seq<seq<Record>>, i: nat, tail: seq<Record>)
    requires i < |tails|
    ensures Total(tails[i := tail]) == Total(tails) - |tails[i]| + |tail|
  {
    var n := |tails| - 1;
    if i < n {
      assert tails[i := tail][..n] == tails[..n][i := tail];
      TotalUpdate(tails[..n], i, tail);
    } else {
      assert tails[i := tail][..n] == tails[..n];
    }
  }

  lemma RefillOfReader(s: State, i: nat, j: nat)
    requires i < |s.tails| && j < |s.tails| && !Queued(s, i)
    ensures OfReader(Refill(s, i).queue, j) + Refill(s, i).tails[j] == OfReader(s.queue, j) + s.tails[j]
  {
    hide Key, Insert;
    if s.tails[i] != [] {
      InsertOfReader(s.queue, Head(s.tails[i][0], i), j);
      if i == j {
        assert s.tails[i] == [s.tails[i][0]] + s.tails[i][1..];
      }
    }
  }

  lemma RefillOfKey(s: State, i: nat, k: nat)
    requires QueueValid(s)
    ensures OfKey(Refill(s, i).queue, k) == OfKey(s.queue, k) + OfKey(Entering(s, i), k)
  {
    hide Key, Insert;
    if Entering(s, i) == [] {
    } else {
      var h := Head(s.tails[i][0], i);
      InsertOfKey(s.queue, h, k);
      OneHead(h, i, k);
    }
  }

  lemma RefillPending(s: State, i: nat)
    ensures Pending(Refill(s, i)) == Pending(s)
  {
    if i < |s.tails| && s.tails[i] != [] {
      TotalUpdate(s.tails, i, s.tails[i][1..]);
    }
  }

  // ----- one step -----

  lemma AddKeeps(t: Trace, packets: seq<Record>)
    requires Accounted(t)
    ensures Accounted(Perform(t, Add(packets)))
  {
    hide Key, Insert, Refill, OfReader, OfKey, Valid, Entering;
    var n := |t.state.tails|;
    var grown := t.state.(tails := t.state.tails + [packets]);
    var t' := Perform(t, Add(packets));
    AddFileValid(t.state, packets);
    NewReader(t, packets);
    assert grown.tails[..n] == t.state.tails && t'.files[..n] == t.files;
    RefillPending(grown, n);
    RefillShape(grown, n);
    forall i | 0 <= i < |t'.files|
      ensures Conserved(t', i)
    {
      RefillOfReader(grown, n, i);
      if i < n {
        assert Conserved(t, i);
      }
      Regroup(OfReader(t.delivered, i), OfReader(grown.queue, i), grown.tails[i],
              OfReader(t'.state.queue, i), t'.state.tails[i]);
    }
    forall k: nat
      ensures FirstComeFirstServed(t', k)
    {
      assert FirstComeFirstServed(t, k);
      RefillOfKey(grown, n, k);
      OfKeyConcat(t.queuedLog, Entering(grown, n), k);
    }
  }

  lemma RefillShape(s: State, i: nat)
    ensures |Refill(s, i).tails| == |s.tails| && Refill(s, i).current == s.current
  {
  }

  lemma Regroup<T>(a: seq<T>, b: seq<T>, c: seq<T>, b': seq<T>, c': seq<T>)
    requires b + c == b' + c'
    ensures a + b + c == a + b' + c'
  {
    assert a + b + c == a + (b + c);
    assert a + b' + c' == a + (b' + c');
  }

  /** A reader just added has delivered nothing and is not queued. */
  lemma NewReader(t: Trace, packets: seq<Record>)
    requires Accounted(t)
    ensures var grown := t.state.(tails := t.state.tails + [packets]);
      && QueueValid(grown) && !Queued(grown, |t.files|)
      && OfReader(t.delivered, |t.files|) == [] && OfReader(t.state.queue, |t.files|) == []
  {
    OfReaderNone(t.delivered, |t.files|);
    OfReaderNone(t.state.queue, |t.files|);
  }

  /** The first half of readNextPacket accounts for everything, though its reader is queued and current at once. */
  lemma RequeueKeeps(t: Trace, u: Trace)
    requires Accounted(t)
    requires u == t.(state := Requeue(t.state), queuedLog := t.queuedLog + Reentering(t.state))
    ensures QueueValid(u.state) && |u.state.tails| == |t.files|
    ensures forall i :: 0 <= i < |t.files| ==> Conserved(u, i)
    ensures forall k: nat :: FirstComeFirstServed(u, k)
    ensures Pending(u.state) == Pending(t.state)
  {
    hide Key, Insert, OfReader, OfKey, Refill, Entering;
    if t.state.current.Some? {
      var c := t.state.current.value.id;
      RefillQueue(t.state, c);
      RefillShape(t.state, c);
      RefillPending(t.state, c);
      forall i | 0 <= i < |t.files|
        ensures Conserved(u, i)
      {
        assert Conserved(t, i);
        RefillOfReader(t.state, c, i);
        Regroup(OfReader(t.delivered, i), OfReader(t.state.queue, i), t.state.tails[i],
                OfReader(u.state.queue, i), u.state.tails[i]);
      }
      forall k: nat
        ensures FirstComeFirstServed(u, k)
      {
        assert FirstComeFirstServed(t, k);
        RefillOfKey(t.state, c, k);
        OfKeyConcat(t.queuedLog, Entering(t.state, c), k);
      }
    } else {
      assert u.queuedLog == t.queuedLog;
      assert u == t;
    }
  }

  /** t' is u after handing out the first queued head. */
  ghost predicate Popped(u: Trace, t': Trace) {
    && u.state.queue != []
    && u.state.queue == [u.state.queue[0]] + t'.state.queue
    && t'.state.tails == u.state.tails && t'.files == u.files && t'.queuedLog == u.queuedLog
    && t'.delivered == u.delivered + [u.state.queue[0]]
  }

  lemma PopConserves(u: Trace, t': Trace, i: nat)
    requires Popped(u, t') && i < |u.files| && i < |u.state.tails| && Conserved(u, i)
    ensures Conserved(t', i)
  {
    hide OfReader;
    OfReaderConcat([u.state.queue[0]], t'.state.queue, i);
    OfReaderConcat(u.delivered, [u.state.queue[0]], i);
  }

  lemma PopServesFirst(u: Trace, t': Trace, k: nat)
    requires Popped(u, t') && FirstComeFirstServed(u, k)
    ensures FirstComeFirstServed(t', k)
  {
    hide OfKey;
    OfKeyConcat([u.state.queue[0]], t'.state.queue, k);
    OfKeyConcat(u.delivered, [u.state.queue[0]], k);
  }

  /** Only the current packet changed. */
  lemma Unmoved(u: Trace, t': Trace)
    requires t' == u.(state := u.state.(current := None))
    requires |u.state.tails| == |u.files|
    ensures forall i :: 0 <= i < |u.files| && Conserved(u, i) ==> Conserved(t', i)
    ensures forall k: nat :: FirstComeFirstServed(u, k) ==> FirstComeFirstServed(t', k)
  {
  }

  lemma NextKeeps(t: Trace)
    requires Accounted(t)
    ensures Accounted(Perform(t, Next))
  {
    hide Key, OfReader, OfKey, Entering, Requeue, Valid, Conserved, FirstComeFirstServed;
    var u := t.(state := Requeue(t.state), queuedLog := t.queuedLog + Reentering(t.state));
    var t' := Perform(t, Next);
    RequeueKeeps(t, u);
    ReadNextValid(t.state);
    if u.state.queue == [] {
      Unmoved(u, t');
    } else {
      forall i | 0 <= i < |t.files| ensures Conserved(t', i) { PopConserves(u, t', i); }
      forall k: nat ensures FirstComeFirstServed(t', k) { PopServesFirst(u, t', k); }
    }
  }

  // ----- every run -----

  lemma {:induction false} EveryRunAccounted(ops: seq<Op>)
    ensures Accounted(Run(ops))
  {
    if ops == [] {
    } else {
      var t := Run(ops[..|ops| - 1]);
      EveryRunAccounted(ops[..|ops| - 1]);
      match ops[|ops| - 1]
      case Add(packets) => AddKeeps(t, packets);
      case Next => NextKeeps(t);
    }
  }

  /** The files of a run are the arguments of its addFile calls, in order. */
  function Added(ops: seq<Op>): seq<seq<Record>> {
    if ops == [] then []
    else Added(ops[..|ops| - 1]) + (match ops[|ops| - 1] case Add(packets) => [packets] case Next => [])
  }

  lemma {:induction false} FilesAreAdded(ops: seq<Op>)
    ensures Run(ops).files == Added(ops)
  {
    if ops != [] {
      FilesAreAdded(ops[..|ops| - 1]);
    }
  }

  /** Main result: in every run the deliveries of each reader are a prefix of its file, in order; once the source is
      done they are the whole file; deliveries come from added files only, and none is counted twice. */
  lemma Interleaving(ops: seq<Op>)
    ensures var t, files := Run(ops), Added(ops);
      && (forall h <- t.delivered :: h.id < |files|)
      && (forall i :: 0 <= i < |files| ==> OfReader(t.delivered, i) <= files[i])
      && (IsDone(t.state) ==> forall i :: 0 <= i < |files| ==> OfReader(t.delivered, i) == files[i])
      && (IsDone(t.state) <==> |t.delivered| == Total(files) && t.state.current.None?)
  {
    hide OfReader;
    var t, files := Run(ops), Added(ops);
    EveryRunAccounted(ops);
    FilesAreAdded(ops);
    if IsDone(t.state) {
      DoneIsEmpty(t.state);
    }
    forall i | 0 <= i < |files|
      ensures OfReader(t.delivered, i) <= files[i]
      ensures IsDone(t.state) ==> OfReader(t.delivered, i) == files[i]
    {
      assert Conserved(t, i);
      if IsDone(t.state) {
        OfReaderNone(t.state.queue, i);
      }
    }
  }

  lemma DoneIsEmpty(s: State)
    requires Valid(s) && IsDone(s)
    ensures forall i :: 0 <= i < |s.tails| ==> s.tails[i] == []
    ensures Pending(s) == 0
  {
    forall i | 0 <= i < |s.tails|
      ensures s.tails[i] == []
    {
      assert !Live(s, i);
    }
    AllEmpty(s.tails);
  }

  lemma {:induction false} AllEmpty(tails: seq<seq<Record>>)
    requires forall i :: 0 <= i < |tails| ==> tails[i] == []
    ensures Total(tails) == 0
  {
    if tails != [] {
      AllEmpty(tails[..|tails| - 1]);
    }
  }

  /** Main result: among equal keys delivery follows the order of queueing, so a queued head is never overtaken by one
      queued later. */
  lemma TieFairness(ops: seq<Op>, k: nat)
    ensures OfKey(Run(ops).delivered, k) <= OfKey(Run(ops).queuedLog, k)
    ensures OfKey(Run(ops).delivered, k) + OfKey(Run(ops).state.queue, k) == OfKey(Run(ops).queuedLog, k)
  {
    EveryRunAccounted(ops);
    assert FirstComeFirstServed(Run(ops), k);
  }
}
