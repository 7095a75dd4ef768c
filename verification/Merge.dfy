/** The k-way merge of PcapPacketSource on values: a state machine over addFile and readNextPacket, and what holds
    over every run of it. The class in PacketSource.dfy is proved to move exactly as this machine does. */
module Merge {
  import opened Bytes
  import opened PcapFormat

  /** A queue entry: the packet at the head of reader `id`. Its multimap key is Key(record). */
  datatype Head = Head(record: Record, id: nat)

  /** `tails[i]` is what reader i would still deliver; it is empty for good once the reader has been dropped. */
  datatype State = State(tails: seq<seq<Record>>, queue: seq<Head>, current: Option<Head>)

  const START := State([], [], None)

  /** Where multimap::emplace puts a key: behind every key that is not greater. */
  function UpperBound(queue: seq<Head>, key: nat): (p: nat)
    ensures p <= |queue|
    ensures forall j :: 0 <= j < p ==> Key(queue[j].record) <= key
    ensures p < |queue| ==> key < Key(queue[p].record)
  {
    if queue == [] || key < Key(queue[0].record) then 0 else 1 + UpperBound(queue[1..], key)
  }

  function Insert(queue: seq<Head>, h: Head): seq<Head> {
    var p := UpperBound(queue, Key(h.record));
    queue[..p] + [h] + queue[p..]
  }

  /** returnToQueue: a reader with nothing more to give is not queued again. */
  function Refill(s: State, i: nat): State {
    if i >= |s.tails| || s.tails[i] == [] then s
    else State(s.tails[i := s.tails[i][1..]], Insert(s.queue, Head(s.tails[i][0], i)), s.current)
  }

  function AddFile(s: State, packets: seq<Record>): State {
    Refill(s.(tails := s.tails + [packets]), |s.tails|)
  }

  /** The refill at the start of readNextPacket. */
  function Requeue(s: State): State {
    if s.current.Some? then Refill(s, s.current.value.id) else s
  }

  /** readNextPacket: the new state and the head handed out, if any. */
  function ReadNext(s: State): (State, Option<Head>) {
    var t := Requeue(s);
    if t.queue == [] then (t.(current := None), None)
    else (State(t.tails, t.queue[1..], Some(t.queue[0])), Some(t.queue[0]))
  }

  predicate IsDone(s: State) {
    s.queue == [] && s.current.None?
  }

  // ----- the state invariant -----

  ghost predicate Sorted(heads: seq<Head>) {
    forall j, k :: 0 <= j < k < |heads| ==> Key(heads[j].record) <= Key(heads[k].record)
  }

  ghost predicate Queued(s: State, i: nat) {
    exists h <- s.queue :: h.id == i
  }

  ghost predicate Live(s: State, i: nat) {
    Queued(s, i) || (s.current.Some? && s.current.value.id == i)
  }

  /** The queue is sorted by key and holds every reader at most once. */
  ghost predicate QueueValid(s: State) {
    && Sorted(s.queue)
    && (forall h <- s.queue :: h.id < |s.tails|)
    && (forall j, k :: 0 <= j < k < |s.queue| ==> s.queue[j].id != s.queue[k].id)
  }

  /** Moreover the current reader is not queued, and a reader that is neither queued nor current has nothing left. */
  ghost predicate Valid(s: State) {
    && QueueValid(s)
    && (s.current.Some? ==> s.current.value.id < |s.tails| && !Queued(s, s.current.value.id))
    && (forall i :: 0 <= i < |s.tails| && s.tails[i] != [] ==> Live(s, i))
  }

  // ----- projections -----

  /** The records of reader i, in order. */
  function OfReader(heads: seq<Head>, i: nat): seq<Record> {
    if heads == [] then []
    else (if heads[0].id == i then [heads[0].record] else []) + OfReader(heads[1..], i)
  }

  /** The heads with key k, in order. */
  function OfKey(heads: seq<Head>, k: nat): seq<Head> {
    if heads == [] then []
    else (if Key(heads[0].record) == k then [heads[0]] else []) + OfKey(heads[1..], k)
  }

  lemma {:induction false} OfReaderConcat(a: seq<Head>, b: seq<Head>, i: nat)
    ensures OfReader(a + b, i) == OfReader(a, i) + OfReader(b, i)
  {
    if a == [] {
      assert a + b == b;
    } else {
      var rest := a[1..];
      assert (a + b)[1..] == rest + b && (a + b)[0] == a[0];
      OfReaderConcat(rest, b, i);
      Associative(if a[0].id == i then [a[0].record] else [], OfReader(rest, i), OfReader(b, i));
    }
  }

  lemma {:induction false} OfKeyConcat(a: seq<Head>, b: seq<Head>, k: nat)
    ensures OfKey(a + b, k) == OfKey(a, k) + OfKey(b, k)
  {
    hide Key;
    if a == [] {
      assert a + b == b;
    } else {
      var rest := a[1..];
      assert (a + b)[1..] == rest + b && (a + b)[0] == a[0];
      OfKeyConcat(rest, b, k);
      Associative(if Key(a[0].record) == k then [a[0]] else [], OfKey(rest, k), OfKey(b, k));
    }
  }

  lemma {:induction false} OfReaderNone(a: seq<Head>, i: nat)
    requires forall h <- a :: h.id != i
    ensures OfReader(a, i) == []
  {
    if a != [] {
      OfReaderNone(a[1..], i);
    }
  }

  lemma {:induction false} OfKeyNone(a: seq<Head>, k: nat)
    requires forall h <- a :: Key(h.record) != k
    ensures OfKey(a, k) == []
  {
    if a != [] {
      OfKeyNone(a[1..], k);
    }
  }

  // ----- what insertion does -----

  lemma BehindUpperBound(queue: seq<Head>, key: nat)
    requires Sorted(queue)
    ensures AllAbove(queue, UpperBound(queue, key), key)
  {
    hide Key;
  }

  /** From position p on, every key is greater. */
  ghost predicate AllAbove(queue: seq<Head>, p: nat, key: nat) {
    forall j :: p <= j < |queue| ==> key < Key(queue[j].record)
  }

  lemma InsertKeepsSorted(queue: seq<Head>, p: nat, h: Head)
    requires Sorted(queue) && p <= |queue|
    requires forall j :: 0 <= j < p ==> Key(queue[j].record) <= Key(h.record)
    requires AllAbove(queue, p, Key(h.record))
    ensures Sorted(queue[..p] + [h] + queue[p..])
  {
    hide Key;
    var r := queue[..p] + [h] + queue[p..];
    forall j, k | 0 <= j < k < |r|
      ensures Key(r[j].record) <= Key(r[k].record)
    {
      assert r[j] == if j < p then queue[j] else if j == p then h else queue[j - 1];
      assert r[k] == if k < p then queue[k] else if k == p then h else queue[k - 1];
    }
  }

  lemma InsertMembers(queue: seq<Head>, p: nat, h: Head)
    requires p <= |queue|
    ensures var r := queue[..p] + [h] + queue[p..];
      && h in r && (forall g <- r :: g in queue || g == h) && (forall g <- queue :: g in r)
  {
    assert queue == queue[..p] + queue[p..];
  }

  /** Insertion keeps the queue sorted and adds the new head, behind everything that is not greater. */
  lemma InsertSorted(queue: seq<Head>, h: Head)
    requires Sorted(queue)
    ensures Sorted(Insert(queue, h))
    ensures forall g <- Insert(queue, h) :: g in queue || g == h
    ensures forall g <- queue :: g in Insert(queue, h)
    ensures h in Insert(queue, h)
  {
    hide Key, UpperBound, AllAbove, Sorted;
    var p := UpperBound(queue, Key(h.record));
    BehindUpperBound(queue, Key(h.record));
    InsertKeepsSorted(queue, p, h);
    InsertMembers(queue, p, h);
  }

  lemma OneHead(h: Head, i: nat, k: nat)
    ensures OfReader([h], i) == if h.id == i then [h.record] else []
    ensures OfKey([h], k) == if Key(h.record) == k then [h] else []
  {
    hide Key;
    assert [h][1..] == [];
  }

  /** A reader that was not queued adds its record; the others keep theirs. */
  lemma InsertOfReader(queue: seq<Head>, h: Head, i: nat)
    requires !exists g <- queue :: g.id == h.id
    ensures OfReader(Insert(queue, h), i) == OfReader(queue, i) + (if i == h.id then [h.record] else [])
  {
    hide OfReader, Key, UpperBound;
    var p := UpperBound(queue, Key(h.record));
    var a, b := queue[..p], queue[p..];
    assert queue == a + b && Insert(queue, h) == (a + [h]) + b;
    OfReaderConcat(a, b, i);
    OfReaderConcat(a + [h], b, i);
    OfReaderConcat(a, [h], i);
    OneHead(h, i, 0);
    if i == h.id {
      OfReaderNone(b, i);
    }
  }

  /** Among equal keys the new head goes last: nobody is overtaken. */
  lemma InsertOfKey(queue: seq<Head>, h: Head, k: nat)
    requires Sorted(queue)
    ensures OfKey(Insert(queue, h), k) == OfKey(queue, k) + (if k == Key(h.record) then [h] else [])
  {
    hide OfKey, Key, UpperBound;
    var p := UpperBound(queue, Key(h.record));
    var a, b := queue[..p], queue[p..];
    assert queue == a + b;
    assert Insert(queue, h) == (a + [h]) + b;
    OfKeyConcat(a, b, k);
    OfKeyConcat(a + [h], b, k);
    OfKeyConcat(a, [h], k);
    OneHead(h, 0, k);
    if k == Key(h.record) {
      BehindUpperBound(queue, k);
      OfKeyNone(b, k);
    }
  }

  // ----- each step keeps the invariant -----

  lemma RefillQueue(s: State, i: nat)
    requires QueueValid(s) && i < |s.tails| && !Queued(s, i)
    ensures var r := Refill(s, i);
      && QueueValid(r)
      && (forall h <- s.queue :: h in r.queue)
      && (forall h <- r.queue :: h in s.queue || h.id == i)
      && (s.tails[i] != [] ==> Queued(r, i))
  {
    hide Key;
    if s.tails[i] != [] {
      var h := Head(s.tails[i][0], i);
      InsertSorted(s.queue, h);
      assert h in Refill(s, i).queue;
    }
  }

  /** Who is queued after a refill. */
  lemma RefillQueued(s: State, i: nat)
    requires QueueValid(s) && i < |s.tails|
    ensures forall k :: Queued(Refill(s, i), k) <==> Queued(s, k) || (k == i && s.tails[i] != [])
  {
    hide Key, Insert, Sorted;
    if s.tails[i] != [] {
      var h := Head(s.tails[i][0], i);
      InsertSorted(s.queue, h);
      forall k
        ensures Queued(Refill(s, i), k) <==> Queued(s, k) || k == i
      {
        if Queued(s, k) {
          var g :| g in s.queue && g.id == k;
          assert g in Refill(s, i).queue;
        }
        if k == i {
          assert h in Refill(s, i).queue;
        }
      }
    }
  }

  lemma AddFileValid(s: State, packets: seq<Record>)
    requires Valid(s)
    ensures Valid(AddFile(s, packets))
  {
    hide Key;
    var n := |s.tails|;
    var grown := s.(tails := s.tails + [packets]);
    RefillQueue(grown, n);
    var r := AddFile(s, packets);
    forall i | 0 <= i < |r.tails| && r.tails[i] != []
      ensures Live(r, i)
    {
      if i < n && Queued(s, i) {
        var h :| h in s.queue && h.id == i;
        assert h in r.queue;
      }
    }
  }

  /** After the refill every reader with packets left is queued. */
  lemma RequeueQueues(s: State)
    requires Valid(s)
    ensures var t := Requeue(s);
      && QueueValid(t) && |t.tails| == |s.tails|
      && (forall i :: 0 <= i < |t.tails| && t.tails[i] != [] ==> Queued(t, i))
  {
    hide Key, Insert;
    var t := Requeue(s);
    if s.current.Some? {
      RefillQueue(s, s.current.value.id);
    }
    forall i | 0 <= i < |t.tails| && t.tails[i] != []
      ensures Queued(t, i)
    {
      assert Live(s, i);
      if Queued(s, i) {
        var h :| h in s.queue && h.id == i;
        assert h in t.queue;
      }
    }
  }

  /** Taking the first head out of the queue. */
  lemma PopQueue(s: State)
    requires QueueValid(s) && s.queue != []
    ensures var t := State(s.tails, s.queue[1..], Some(s.queue[0]));
      && QueueValid(t) && (forall i :: Queued(s, i) <==> Queued(t, i) || i == s.queue[0].id)
      && !Queued(t, s.queue[0].id)
  {
    hide Key;
    var t := State(s.tails, s.queue[1..], Some(s.queue[0]));
    assert s.queue == [s.queue[0]] + t.queue;
  }

  lemma ReadNextValid(s: State)
    requires Valid(s)
    ensures Valid(ReadNext(s).0)
  {
    hide Key, Requeue, Sorted;
    RequeueQueues(s);
    var t := Requeue(s);
    if t.queue != [] {
      PopQueue(t);
    }
  }

  /** The packet handed out carries the least key of all pending heads. */
  lemma PopIsMinimum(s: State)
    requires Valid(s)
    ensures var (r, out) := ReadNext(s);
      out.Some? ==> forall h <- r.queue :: Key(out.value.record) <= Key(h.record)
  {
    hide Key;
    if s.current.Some? {
      RefillQueue(s, s.current.value.id);
    }
  }
}
