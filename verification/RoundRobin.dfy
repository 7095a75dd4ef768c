/** Equal keys in ordered files: when all files are added first, readers take turns. The j-th packet with key k of any
    file comes before the (j+1)-th packet with key k of every other, and in every round the readers that still have such
    a packet come in the order of the round before. */
module RoundRobin {
  import opened PcapFormat
  import opened Merge
  import opened MergeRuns
  import opened SortedMerge

  /** How many of the heads belong to reader i. */
  function Turns(heads: seq<Head>, i: nat): nat {
    if heads == [] then 0
    else Turns(heads[..|heads| - 1], i) + (if heads[|heads| - 1].id == i then 1 else 0)
  }

  /** The turn number of position a: how often its reader came before. */
  function Turn(heads: seq<Head>, a: nat): nat
    requires a < |heads|
  {
    Turns(heads[..a], heads[a].id)
  }

  /** Turn numbers never decrease along the sequence. */
  ghost predicate TakesTurns(heads: seq<Head>) {
    forall a, b :: 0 <= a < b < |heads| ==> Turn(heads, a) <= Turn(heads, b)
  }

  /** Position b is the next turn of the reader at position a. */
  ghost predicate Again(heads: seq<Head>, a: nat, b: nat) {
    && a < |heads| && b < |heads|
    && heads[b].id == heads[a].id && Turn(heads, b) == Turn(heads, a) + 1
  }

  /** Readers keep their places from one turn to the next. */
  ghost predicate KeepsPlaces(heads: seq<Head>) {
    forall a: nat, b: nat, a': nat, b': nat ::
      a < b < |heads| && heads[a].id != heads[b].id && Again(heads, a, a') && Again(heads, b, b') ==> a' < b'
  }

  /** Readers take turns, always in the same order. */
  ghost predicate Rounds(heads: seq<Head>) {
    TakesTurns(heads) && KeepsPlaces(heads)
  }

  // ----- counting -----

  lemma {:induction false} TurnsConcat(a: seq<Head>, b: seq<Head>, i: nat)
    ensures Turns(a + b, i) == Turns(a, i) + Turns(b, i)
  {
    if b == [] {
      assert a + b == a;
    } else {
      assert (a + b)[..|a + b| - 1] == a + b[..|b| - 1];
      TurnsConcat(a, b[..|b| - 1], i);
    }
  }

  lemma {:induction false} TurnsOfKey(heads: seq<Head>, k: nat, i: nat)
    ensures Turns(OfKey(heads, k), i) <= Turns(heads, i)
  {
    hide Key;
    if heads != [] {
      assert heads == [heads[0]] + heads[1..];
      TurnsConcat([heads[0]], heads[1..], i);
      TurnsOfKey(heads[1..], k, i);
      TurnsConcat(if Key(heads[0].record) == k then [heads[0]] else [], OfKey(heads[1..], k), i);
    }
  }

  lemma {:induction false} DistinctTurns(heads: seq<Head>, i: nat)
    requires forall j, k :: 0 <= j < k < |heads| ==> heads[j].id != heads[k].id
    ensures Turns(heads, i) <= 1
    ensures Turns(heads, i) == 1 ==> exists h <- heads :: h.id == i
  {
    if heads != [] {
      DistinctTurns(heads[..|heads| - 1], i);
    }
  }

  /** The last turn of a reader that had one. */
  lemma {:induction false} LastTurn(heads: seq<Head>, i: nat) returns (a: nat)
    requires Turns(heads, i) > 0
    ensures a < |heads| && heads[a].id == i && Turn(heads, a) == Turns(heads, i) - 1
  {
    var n := |heads| - 1;
    if heads[n].id == i {
      a := n;
    } else {
      a := LastTurn(heads[..n], i);
      assert heads[..n][..a] == heads[..a];
    }
  }

  /** A position's turn number is below its reader's count. */
  lemma TurnBelow(heads: seq<Head>, a: nat)
    requires a < |heads|
    ensures Turn(heads, a) + 1 <= Turns(heads, heads[a].id)
  {
    assert heads == heads[..a + 1] + heads[a + 1..];
    TurnsConcat(heads[..a + 1], heads[a + 1..], heads[a].id);
    assert heads[..a + 1][..a] == heads[..a];
  }

  // ----- one head joining -----

  lemma PrefixTurn(out: seq<Head>, log: seq<Head>, a: nat)
    requires out <= log && a < |out|
    ensures Turn(out, a) == Turn(log, a)
  {
    assert out[..a] == log[..a];
  }

  lemma NextTurn(heads: seq<Head>, h: Head)
    ensures Turn(heads + [h], |heads|) == Turns(heads, h.id)
  {
    assert (heads + [h])[..|heads|] == heads;
  }

  /** Appending a head whose reader has had at least as many turns as any position shows keeps the order of turns. */
  lemma JoinKeepsTurns(heads: seq<Head>, h: Head)
    requires TakesTurns(heads)
    requires forall a :: 0 <= a < |heads| ==> Turn(heads, a) <= Turns(heads, h.id)
    ensures TakesTurns(heads + [h])
  {
    hide Turns, Turn;
    var all := heads + [h];
    forall a, b | 0 <= a < b < |all|
      ensures Turn(all, a) <= Turn(all, b)
    {
      PrefixTurn(heads, all, a);
      if b < |heads| {
        PrefixTurn(heads, all, b);
      } else {
        NextTurn(heads, h);
      }
    }
  }

  lemma PrefixAgain(out: seq<Head>, log: seq<Head>, a: nat, b: nat)
    requires out <= log && a < |out| && b < |out|
    ensures Again(out, a, b) <==> Again(log, a, b)
  {
    hide Turn;
    PrefixTurn(out, log, a);
    PrefixTurn(out, log, b);
  }

  lemma PrefixKeepsPlaces(out: seq<Head>, log: seq<Head>)
    requires out <= log && KeepsPlaces(log)
    ensures KeepsPlaces(out)
  {
    hide Again;
    forall a: nat, b: nat, a': nat, b': nat
      | a < b < |out| && out[a].id != out[b].id && Again(out, a, a') && Again(out, b, b')
      ensures a' < b'
    {
      AgainInside(out, a, a');
      AgainInside(out, b, b');
      PrefixAgain(out, log, a, a');
      PrefixAgain(out, log, b, b');
    }
  }

  lemma AgainInside(heads: seq<Head>, a: nat, b: nat)
    requires Again(heads, a, b)
    ensures a < |heads| && b < |heads|
  {
  }

  /** Reader i, about to take another turn, is not overtaking: nobody behind its last turn has had one since. */
  ghost predicate NextInRound(heads: seq<Head>, i: nat) {
    forall a: nat, b: nat, b': nat ::
      a < |heads| && a < b && heads[a].id == i && Turn(heads, a) + 1 == Turns(heads, i) ==> !Again(heads, b, b')
  }

  lemma JoinKeepsPlaces(heads: seq<Head>, h: Head)
    requires KeepsPlaces(heads) && NextInRound(heads, h.id)
    ensures KeepsPlaces(heads + [h])
  {
    hide Turns, Turn;
    var all := heads + [h];
    forall a: nat, b: nat, a': nat, b': nat
      | a < b < |all| && all[a].id != all[b].id && Again(all, a, a') && Again(all, b, b')
      ensures a' < b'
    {
      NotLast(heads, h, a, a');
      NotLast(heads, h, b, b');
      if b' < |heads| {
        PrefixAgain(heads, all, b, b');
        if a' < |heads| {
          PrefixAgain(heads, all, a, a');
        } else {
          NextTurn(heads, h);
          PrefixTurn(heads, all, a);
        }
      }
    }
  }

  /** The last position has no next turn. */
  lemma NotLast(heads: seq<Head>, h: Head, a: nat, b: nat)
    requires Again(heads + [h], a, b)
    ensures a < |heads|
  {
    var all := heads + [h];
    if a == |heads| {
      NextTurn(heads, h);
      if b < |heads| {
        TurnBelow(heads, b);
        PrefixTurn(heads, all, b);
      }
    }
  }

  /** Equal turns of one reader are one position; an earlier position has an earlier turn. */
  lemma EarlierTurn(heads: seq<Head>, a: nat, b: nat)
    requires a < b < |heads| && heads[a].id == heads[b].id
    ensures Turn(heads, a) < Turn(heads, b)
  {
    TurnBelow(heads[..b], a);
    PrefixTurn(heads[..b], heads, a);
  }

  /** A reader waits at most once, so that behind the delivered heads nobody has two turns. */
  lemma WaitingNotAgain(done: seq<Head>, waiting: seq<Head>, b: nat, b': nat)
    requires |done| <= b && forall i: nat :: Turns(waiting, i) <= 1
    ensures !Again(done + waiting, b, b')
  {
    var all := done + waiting;
    if Again(all, b, b') {
      var i := all[b].id;
      TurnBelow(all, b');
      TurnsConcat(done, waiting, i);
      assert all[..b] == done + waiting[..b - |done|];
      TurnsConcat(done, waiting[..b - |done|], i);
    }
  }

  lemma LastDeliveredIsNext(done: seq<Head>, waiting: seq<Head>)
    requires done != [] && Turns(waiting, done[|done| - 1].id) == 0
    requires forall i: nat :: Turns(waiting, i) <= 1
    ensures NextInRound(done + waiting, done[|done| - 1].id)
  {
    hide Turns, Turn, Again;
    var all, p := done + waiting, |done| - 1;
    var i := done[p].id;
    forall a: nat, b: nat, b': nat
      | a < |all| && a < b && all[a].id == i && Turn(all, a) + 1 == Turns(all, i)
      ensures !Again(all, b, b')
    {
      TurnsConcat(done, waiting, i);
      LastIsLatest(done, i);
      PrefixTurn(done, all, p);
      if a < p {
        EarlierTurn(all, a, p);
      }
      WaitingNotAgain(done, waiting, b, b');
    }
  }

  lemma LastIsLatest(heads: seq<Head>, i: nat)
    requires heads != [] && heads[|heads| - 1].id == i
    ensures Turn(heads, |heads| - 1) + 1 == Turns(heads, i)
  {
  }

  lemma NoTurnYet(heads: seq<Head>, i: nat)
    requires Turns(heads, i) == 0
    ensures NextInRound(heads, i)
  {
  }

  lemma NotWaiting(s: State, i: nat, k: nat)
    requires QueueValid(s) && !Queued(s, i)
    ensures Turns(OfKey(s.queue, k), i) == 0
  {
    hide Turns, OfKey;
    DistinctTurns(s.queue, i);
    TurnsOfKey(s.queue, k, i);
  }

  /** When the reader of the last delivered head joins again, nobody has had more than one turn more than it. */
  lemma LastDeliveredMayJoin(done: seq<Head>, waiting: seq<Head>, a: nat)
    requires done != [] && TakesTurns(done + waiting) && a < |done + waiting|
    requires forall i: nat :: Turns(waiting, i) <= 1
    ensures Turn(done + waiting, a) <= Turns(done + waiting, done[|done| - 1].id)
  {
    var all, p := done + waiting, |done| - 1;
    TurnBelow(all, p);
    if a > p {
      var i := all[a].id;
      TurnBelow(all, a);
      TurnsConcat(done, waiting, i);
      if Turns(done, i) > 0 {
        var b := LastTurn(done, i);
        assert all[..b] == done[..b];
        assert Turn(all, b) == Turns(done, i) - 1;
      }
    }
  }

  /** If no head of this key has been delivered, every reader has had no turn before its only one. */
  lemma FreshKeyTurns(waiting: seq<Head>, a: nat)
    requires a < |waiting| && forall i: nat :: Turns(waiting, i) <= 1
    ensures Turn(waiting, a) == 0
  {
    TurnBelow(waiting, a);
  }

  lemma WaitingOnce(s: State, k: nat)
    requires QueueValid(s)
    ensures forall i: nat :: Turns(OfKey(s.queue, k), i) <= 1
  {
    forall i: nat
      ensures Turns(OfKey(s.queue, k), i) <= 1
    {
      DistinctTurns(s.queue, i);
      TurnsOfKey(s.queue, k, i);
    }
  }

  /** A run whose deliveries are sorted and whose files all came first; every key's heads take turns. */
  ghost predicate Fair(t: Trace) {
    && Accounted(t)
    && Sorted(t.delivered)
    && forall k: nat :: Rounds(OfKey(t.queuedLog, k))
  }

  lemma OfKeyLast(heads: seq<Head>, k: nat)
    requires heads != [] && Sorted(heads)
    ensures var last := heads[|heads| - 1];
      && (Key(last.record) == k ==> OfKey(heads, k) != [] && OfKey(heads, k)[|OfKey(heads, k)| - 1] == last)
      && (Key(last.record) < k ==> OfKey(heads, k) == [])
  {
    hide Key, OfKey;
    var n := |heads| - 1;
    assert heads == heads[..n] + [heads[n]];
    OfKeyConcat(heads[..n], [heads[n]], k);
    OneHead(heads[n], 0, k);
    if Key(heads[n].record) < k {
      OfKeyNone(heads, k);
    }
  }

  /** The head queued by readNextPacket may join the heads of its key. */
  lemma EnteringMayJoin(t: Trace, h: Head, a: nat)
    requires Fair(t) && Ahead(t.state)
    requires t.state.current.Some? && Entering(t.state, t.state.current.value.id) == [h]
    requires a < |OfKey(t.queuedLog, Key(h.record))|
    ensures Turn(OfKey(t.queuedLog, Key(h.record)), a) <= Turns(OfKey(t.queuedLog, Key(h.record)), h.id)
  {
    hide Key, OfKey, Turn, Turns, TakesTurns, KeepsPlaces;
    var k := Key(h.record);
    assert FirstComeFirstServed(t, k);
    assert Rounds(OfKey(t.queuedLog, k));
    var c := t.state.current.value;
    assert Key(c.record) <= k;
    WaitingOnce(t.state, k);
    OfKeyLast(t.delivered, k);
    var done, waiting := OfKey(t.delivered, k), OfKey(t.state.queue, k);
    if Key(c.record) == k {
      LastDeliveredMayJoin(done, waiting, a);
    } else {
      assert done + waiting == waiting;
      FreshKeyTurns(waiting, a);
    }
  }

  /** And it does so in its place. */
  lemma EnteringInPlace(t: Trace, h: Head)
    requires Fair(t) && Ahead(t.state)
    requires t.state.current.Some? && Entering(t.state, t.state.current.value.id) == [h]
    ensures NextInRound(OfKey(t.queuedLog, Key(h.record)), h.id)
  {
    hide Key, OfKey, Turn, Turns, Rounds, NextInRound;
    var k := Key(h.record);
    assert FirstComeFirstServed(t, k);
    var c := t.state.current.value;
    assert Key(c.record) <= k;
    WaitingOnce(t.state, k);
    NotWaiting(t.state, c.id, k);
    OfKeyLast(t.delivered, k);
    var done, waiting := OfKey(t.delivered, k), OfKey(t.state.queue, k);
    if Key(c.record) == k {
      LastDeliveredIsNext(done, waiting);
    } else {
      assert done + waiting == waiting;
      NoTurnYet(waiting, h.id);
    }
  }

  lemma LogKeepsTurns(t: Trace, k: nat)
    requires Fair(t) && Ahead(t.state)
    ensures Rounds(OfKey(Perform(t, Next).queuedLog, k))
  {
    hide Key, OfKey, Turn, Turns, ReadNext, TakesTurns, KeepsPlaces, NextInRound, Accounted, Ahead, Sorted;
    assert Rounds(OfKey(t.queuedLog, k));
    var t' := Perform(t, Next);
    var entering := Reentering(t.state);
    assert t'.queuedLog == t.queuedLog + entering;
    OfKeyConcat(t.queuedLog, entering, k);
    if entering == [] {
      OfKeyNone([], k);
      assert t'.queuedLog == t.queuedLog;
    } else {
      var h := entering[0];
      OneHead(h, 0, k);
      if Key(h.record) == k {
        forall a | 0 <= a < |OfKey(t.queuedLog, k)|
          ensures Turn(OfKey(t.queuedLog, k), a) <= Turns(OfKey(t.queuedLog, k), h.id)
        {
          EnteringMayJoin(t, h, a);
        }
        JoinKeepsTurns(OfKey(t.queuedLog, k), h);
        EnteringInPlace(t, h);
        JoinKeepsPlaces(OfKey(t.queuedLog, k), h);
      } else {
        assert OfKey(t'.queuedLog, k) == OfKey(t.queuedLog, k);
      }
    }
  }

  lemma {:induction false} NextsStayFair(files: seq<seq<Record>>, n: nat)
    requires AllOrdered(files)
    ensures Fair(Run(Adds(files) + Nexts(n)))
  {
    hide Run, Accounted, Rounds, Sorted, OfKey, AllOrdered, Burst, Perform;
    var ops := Adds(files) + Nexts(n);
    EveryRunAccounted(ops);
    AddsOnly(files);
    SortedBetweenAdds(Adds(files), n);
    assert Run(ops).delivered == Burst(Run(Adds(files)).state, n);
    if n == 0 {
      assert ops == Adds(files);
      NothingDelivered(Run(ops));
    } else {
      var before := Adds(files) + Nexts(n - 1);
      NextsStayFair(files, n - 1);
      assert ops == before + [Next];
      RunThen(before, Next);
      NextsAddNothing(Adds(files), n - 1);
      FilesAreAdded(before);
      RunAhead(Run(before));
      forall k: nat
        ensures Rounds(OfKey(Run(ops).queuedLog, k))
      {
        LogKeepsTurns(Run(before), k);
      }
    }
  }

  lemma NothingDelivered(t: Trace)
    requires Accounted(t) && t.delivered == []
    ensures forall k: nat :: Rounds(OfKey(t.queuedLog, k))
  {
    hide OfKey, Turn, Key, Again;
    forall k: nat
      ensures Rounds(OfKey(t.queuedLog, k))
    {
      assert FirstComeFirstServed(t, k);
      OfKeyNone([], k);
      WaitingOnce(t.state, k);
      var waiting := OfKey(t.state.queue, k);
      assert OfKey(t.queuedLog, k) == waiting == [] + waiting;
      forall a, b | 0 <= a < b < |waiting|
        ensures Turn(waiting, a) <= Turn(waiting, b)
      {
        FreshKeyTurns(waiting, a);
      }
      forall b: nat, b': nat
        ensures !Again(waiting, b, b')
      {
        WaitingNotAgain([], waiting, b, b');
      }
    }
  }

  /** Main result: the sorted merge of ordered files delivers equal keys in rounds, and every round in the order of the
      round before. */
  lemma EqualKeysTakeTurns(files: seq<seq<Record>>, k: nat)
    requires AllOrdered(files)
    ensures Rounds(OfKey(MergeOf(files), k))
  {
    hide Run, OfKey, MergeOf, AllOrdered, Accounted, Turn, Burst, KeepsPlaces;
    var ops, n := MergeIsRun(files);
    NextsStayFair(files, n);
    TieFairness(ops, k);
    var out, log := OfKey(MergeOf(files), k), OfKey(Run(ops).queuedLog, k);
    assert Rounds(log);
    forall a, b | 0 <= a < b < |out|
      ensures Turn(out, a) <= Turn(out, b)
    {
      PrefixTurn(out, log, a);
      PrefixTurn(out, log, b);
    }
    PrefixKeepsPlaces(out, log);
  }
}
