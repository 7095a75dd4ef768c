/** PcapPacketSource on the heap: readers with their own buffers, a queue of pointers into them. It moves exactly as the
    machine of module Merge does, and every packet in it or handed out last still shows its record. */
module PacketSources {
  import opened Bytes
  import opened PcapFormat
  import opened FileReaders
  import opened Readers
  import Merge
  import MergeRuns

  datatype Context = Context(packet: Packet, reader: Reader?)

  /** A node of the multimap. */
  datatype Entry = Entry(key: nat, context: Context)

  class PcapPacketSource {
    const codecs: Codecs
    var storage: seq<Reader>
    var queue: seq<Entry>
    var current: Context
    var hasDoneCallback: bool

    /** How often the done callback was fired. */
    var doneCalls: nat

    ghost var model: Merge.State

    /** All calls of addFile, with what the file contributes, and of readNextPacket so far. */
    ghost var history: seq<MergeRuns.Op>
    ghost var Repr: set<object>

    /** Every reader owns its objects alone. */
    ghost predicate Owning()
      reads this`storage, this`Repr, Repr - {this}
    {
      && this in Repr
      && Usable(codecs)
      && (forall r <- storage :: r in Repr && r.Repr <= Repr && this !in r.Repr && r.buffer in r.Repr && r.Valid())
      && (forall i, j :: 0 <= i < j < |storage| ==> storage[i].Repr !! storage[j].Repr)
    }

    /** The context points into its reader's buffer, where the head's bytes still are. */
    ghost predicate Matches(c: Context, h: Merge.Head)
      reads this`storage, this`Repr, Repr - {this}
    {
      && h.id < |storage| && c.reader == storage[h.id]
      && c.reader in Repr && c.reader.buffer in Repr - {this}
      && c.packet.data == c.reader.buffer && c.packet.Shows(h.record)
    }

    /** The queue holds the machine's heads, in order. */
    ghost predicate Aligned()
      reads this`queue, this`model, this`storage, this`Repr, Repr - {this}
    {
      && |queue| == |model.queue|
      && (forall k :: 0 <= k < |queue| ==>
            queue[k].key == Key(model.queue[k].record) && Matches(queue[k].context, model.queue[k]))
    }

    /** Readers that stand in the queue, or in `others`, will deliver the rest of their file; all others are dropped. */
    ghost predicate Tracks(others: set<nat>)
      requires Owning()
      reads this`model, this`storage, this`Repr, Repr - {this}
    {
      && |model.tails| == |storage|
      && (forall i :: 0 <= i < |storage| ==>
            model.tails[i] == if Merge.Queued(model, i) || i in others then storage[i].Upcoming() else [])
    }

    ghost function CurrentId(): set<nat>
      reads this`model
    {
      if model.current.Some? then {model.current.value.id} else {}
    }

    /** The source has a current reader when the machine has, and it is not queued. */
    ghost predicate CurrentApart()
      reads this`current, this`model
    {
      && (current.reader == null <==> model.current.None?)
      && (model.current.Some? ==> !Merge.Queued(model, model.current.value.id))
    }

    /** The objects are linked as the machine's state says. */
    ghost predicate Linked()
      reads this`queue, this`current, this`model, this`storage, this`Repr, Repr - {this}
    {
      && Owning()
      && Merge.QueueValid(model) && Aligned()
      && Tracks(CurrentId())
      && CurrentMatches() && CurrentApart()
    }

    /** Moreover the state is the one that the calls so far lead to. */
    ghost predicate Valid()
      reads this, Repr
    {
      Linked() && model == MergeRuns.Run(history).state
    }

    /** The machine's own invariant holds of every valid source. */
    lemma MachineValid()
      requires Valid()
      ensures Merge.Valid(model) && (IsDone() <==> Merge.IsDone(model)) && Usable(codecs)
    {
      hide Merge.Sorted;
    }

    /** Main result: whatever calls led here, every reader has handed out a prefix of its file, in order, and the source
        is done only when all files have been handed out completely. */
    lemma WholeRun()
      requires Valid()
      ensures var t, files := MergeRuns.Run(history), MergeRuns.Added(history);
        && t.state == model && |files| == |storage|
        && (forall h <- t.delivered :: h.id < |files|)
        && (forall i :: 0 <= i < |files| ==> Merge.OfReader(t.delivered, i) <= files[i])
        && (IsDone() ==> forall i :: 0 <= i < |files| ==> Merge.OfReader(t.delivered, i) == files[i])
    {
      hide MergeRuns.Run, Merge.OfReader;
      MachineValid();
      MergeRuns.Interleaving(history);
      MergeRuns.EveryRunAccounted(history);
      MergeRuns.FilesAreAdded(history);
    }

    constructor (codecs: Codecs, withCallback: bool)
      requires Usable(codecs)
      ensures Valid() && fresh(Repr) && model == Merge.START && storage == [] && history == []
      ensures this.codecs == codecs && hasDoneCallback == withCallback && doneCalls == 0
    {
      this.codecs := codecs;
      storage, queue, current := [], [], Context(EMPTY, null);
      hasDoneCallback, doneCalls := withCallback, 0;
      model, history := Merge.START, [];
      Repr := {this};
    }

    /** isDone. */
    predicate IsDone()
      reads this
    {
      queue == [] && current.reader == null
    }

    /** Where multimap::emplace inserts a key: at the end of the range of equal keys. */
    method FindUpperBound(key: nat) returns (p: nat)
      ensures p <= |queue|
      ensures forall j :: 0 <= j < p ==> queue[j].key <= key
      ensures p < |queue| ==> key < queue[p].key
    {
      p := 0;
      while p < |queue| && queue[p].key <= key
        invariant p <= |queue|
        invariant forall j :: 0 <= j < p ==> queue[j].key <= key
      {
        p := p + 1;
      }
    }

    lemma KeyOfContext(c: Context, h: Merge.Head)
      requires Matches(c, h)
      ensures Key(Record(c.packet.sec, c.packet.nsec, 0, [])) == Key(h.record)
    {
    }

    /** queue_.emplace, with its effect on the machine. */
    method Emplace(c: Context, ghost h: Merge.Head)
      requires Aligned() && Matches(c, h)
      modifies this`queue, this`model
      ensures Aligned() && model == old(model).(queue := Merge.Insert(old(model).queue, h))
    {
      hide Key, Matches, Merge.UpperBound;
      KeyOfContext(c, h);
      var key := Key(Record(c.packet.sec, c.packet.nsec, 0, []));
      var p := FindUpperBound(key);
      BoundIsUnique(model.queue, key, p);
      queue := queue[..p] + [Entry(key, c)] + queue[p..];
      model := model.(queue := Merge.Insert(model.queue, h));
    }

    /** The packet handed out last still shows its record. */
    ghost predicate CurrentMatches()
      reads this`current, this`model, this`storage, this`Repr, Repr - {this}
    {
      model.current.Some? ==> Matches(current, model.current.value)
    }

    ghost predicate CurrentIs(i: nat)
      reads this`model
    {
      model.current.Some? && model.current.value.id == i
    }

    /** What a reader's own reads leave alone: the heads of all other readers. */
    twostate lemma OthersMatch(i: nat)
      requires old(Owning()) && old(Aligned()) && i < |storage| && !Merge.Queued(model, i)
      requires storage == old(storage) && Repr == old(Repr) && queue == old(queue)
      requires model == old(model) && current == old(current)
      requires forall o: object :: o in old(Repr) && o !in storage[i].Repr ==> unchanged(o)
      ensures Aligned()
      ensures old(CurrentMatches()) && !CurrentIs(i) ==> CurrentMatches()
    {
      hide Key;
      if old(CurrentMatches()) && !CurrentIs(i) && model.current.Some? {
        assert storage[model.current.value.id].buffer !in storage[i].Repr;
      }
      forall k | 0 <= k < |queue|
        ensures Matches(queue[k].context, model.queue[k])
      {
        assert old(Matches(queue[k].context, model.queue[k]));
        assert model.queue[k].id != i;
        assert storage[model.queue[k].id].buffer !in storage[i].Repr;
      }
    }

    /** returnToQueue. The reader is in the storage but neither queued nor among `others`. */
    method ReturnToQueue(reader: Reader, ghost i: nat, ghost others: set<nat>)
      requires Owning() && Merge.QueueValid(model) && Aligned() && Tracks(others + {i}) && i !in others
      requires i < |storage| && reader == storage[i] && !Merge.Queued(model, i)
      modifies this`queue, this`model, reader.Repr
      ensures Owning() && Merge.QueueValid(model) && Aligned() && Tracks(others)
      ensures model == Merge.Refill(old(model), i) && model.current == old(model).current
      ensures old(CurrentMatches()) && !CurrentIs(i) ==> CurrentMatches()
      ensures old(CurrentApart()) && !CurrentIs(i) ==> CurrentApart()
    {
      hide Key, Reader.Valid, Reader.Upcoming, Merge.Insert, Merge.QueueValid, Merge.Queued, Matches;
      Merge.RefillQueue(model, i);
      Merge.RefillQueued(model, i);
      var packet := reader.ReadPacket();
      OthersMatch(i);
      if packet.Present() {
        ghost var h := Merge.Head(model.tails[i][0], i);
        NewMatch(Context(packet, reader), h);
        Emplace(Context(packet, reader), h);
        model := model.(tails := model.tails[i := model.tails[i][1..]]);
      }
    }

    lemma NewMatch(c: Context, h: Merge.Head)
      requires Owning() && h.id < |storage| && c.reader == storage[h.id]
      requires c.packet.data == c.reader.buffer && c.packet.Shows(h.record)
      ensures Matches(c, h)
    {
    }

    /** The reader's stream tested by `if (!*reader)`. */
    method IsOk(reader: Reader) returns (ok: bool)
      requires reader.Valid()
      ensures ok == reader.file.Ok()
    {
      ok := reader.file.Ok();
    }

    /** addFile. The test of the new reader never fails, so that every file, even a missing or rejected one, takes a
        place in the storage; such a file has no packets. Packets queued or handed out stay as they are. */
    method AddFile(file: DiskFile)
      requires Valid()
      modifies Repr
      ensures Valid() && fresh(Repr - old(Repr))
      ensures model == Merge.AddFile(old(model), FilePackets(ContentOf(file, codecs).bytes))
      ensures history == old(history) + [MergeRuns.Add(FilePackets(ContentOf(file, codecs).bytes))]
      ensures |storage| == |old(storage)| + 1 && storage[..|old(storage)|] == old(storage)
      ensures current == old(current) && hasDoneCallback == old(hasDoneCallback) && doneCalls == old(doneCalls)
      ensures model.current.Some? ==> current.packet.Shows(model.current.value.record)
    {
      hide Key, Packet.Shows, Reader.Valid, Reader.Upcoming, Reader.OpenedOn, Merge.Refill, Merge.QueueValid,
        MergeRuns.Run, FilePackets, ContentOf, Usable, FileReader.Ok, FileReader.Good, Owning, Linked, Aligned, Tracks,
        CurrentMatches, CurrentApart, Merge.Queued;
      LinkedFacts();
      ghost var op := MergeRuns.Add(FilePackets(ContentOf(file, codecs).bytes));
      MergeRuns.RunThen(history, op);
      history := history + [op];
      var reader := new Reader(file, codecs);
      var ok := IsOk(reader);
      assert ok;
      ghost var n := |storage|;
      PushBack(reader);
      ReturnToQueue(reader, n, CurrentId());
      AllLinked();
      if model.current.Some? {
        CurrentShows();
      }
    }

    lemma AllLinked()
      requires Owning() && Merge.QueueValid(model) && Aligned() && Tracks(CurrentId())
      requires CurrentMatches() && CurrentApart()
      ensures Linked()
    {
      hide Owning, Merge.QueueValid, Aligned, Tracks, CurrentMatches, CurrentApart;
    }

    /** storage_.push_back. */
    method PushBack(reader: Reader)
      requires Linked() && reader.Valid() && reader.Repr !! Repr
      requires reader in reader.Repr && reader.buffer in reader.Repr
      modifies this`storage, this`Repr, this`model
      ensures Owning() && Merge.QueueValid(model) && Aligned() && Tracks(CurrentId() + {|old(storage)|})
      ensures storage == old(storage) + [reader] && Repr == old(Repr) + reader.Repr
      ensures !Merge.Queued(model, |old(storage)|)
      ensures model == old(model).(tails := old(model).tails + [reader.Upcoming()])
      ensures CurrentMatches() && CurrentApart() && !CurrentIs(|old(storage)|)
    {
      hide *;
      LinkedFacts();
      model := model.(tails := model.tails + [reader.Upcoming()]);
      storage := storage + [reader];
      Repr := Repr + reader.Repr;
      GrownOwning(reader);
      GrownAligned(reader.Upcoming());
      GrownTracks(reader);
    }

    /** One more reader, which shares nothing with the others. */
    twostate lemma GrownOwning(reader: Reader)
      requires old(Owning()) && reader.Valid() && reader.Repr !! old(Repr)
      requires reader in reader.Repr && reader.buffer in reader.Repr
      requires storage == old(storage) + [reader] && Repr == old(Repr) + reader.Repr
      requires forall o: object :: o in old(Repr) && o != this ==> unchanged(o)
      ensures Owning()
    {
      hide Reader.Valid;
      assert storage[..|storage| - 1] == old(storage);
      forall r | r in old(storage)
        ensures r.Valid()
      {
        assert old(r.Valid());
      }
    }

    twostate lemma GrownAligned(packets: seq<Record>)
      requires old(Linked()) && |storage| == |old(storage)| + 1 && storage[..|old(storage)|] == old(storage)
      requires old(Repr) <= Repr && queue == old(queue) && current == old(current)
      requires model == old(model).(tails := old(model).tails + [packets])
      requires forall o: object :: o in old(Repr) && o != this ==> unchanged(o)
      ensures Merge.QueueValid(model) && Aligned() && !Merge.Queued(model, |old(storage)|)
      ensures CurrentMatches() && CurrentApart() && !CurrentIs(|old(storage)|)
    {
      hide Key, Owning, Merge.Sorted;
      forall k | 0 <= k < |queue|
        ensures Matches(queue[k].context, model.queue[k])
      {
        assert old(Matches(queue[k].context, model.queue[k]));
        assert storage[model.queue[k].id] == old(storage)[model.queue[k].id];
      }
      if model.current.Some? {
        assert storage[model.current.value.id] == old(storage)[model.current.value.id];
      }
    }

    twostate lemma GrownTracks(reader: Reader)
      requires old(Owning()) && old(Tracks(CurrentId())) && Owning()
      requires storage == old(storage) + [reader] && queue == old(queue)
      requires model == old(model).(tails := old(model).tails + [reader.Upcoming()])
      requires forall o: object :: o in old(Repr) && o != this ==> unchanged(o)
      ensures Tracks(CurrentId() + {|old(storage)|})
    {
      hide Reader.Valid, Reader.Upcoming;
      forall i | 0 <= i < |old(storage)|
        ensures storage[i].Upcoming() == old(storage[i].Upcoming())
      {
        assert storage[i] == old(storage)[i];
      }
    }

    /** readNextPacket: the least pending packet, intact until the next call; or the empty packet, with the callback. */
    method ReadNextPacket() returns (p: Packet)
      requires Valid()
      modifies Repr
      ensures Valid() && Repr == old(Repr) && storage == old(storage) && hasDoneCallback == old(hasDoneCallback)
      ensures model == Merge.ReadNext(old(model)).0 && history == old(history) + [MergeRuns.Next]
      ensures match Merge.ReadNext(old(model)).1
        case Some(h) =>
          && h.id < |storage| && p.data == storage[h.id].buffer && p.Shows(h.record) && p == current.packet
          && doneCalls == old(doneCalls)
        case None =>
          p == Packet(0, 0, 0, 0, null) && doneCalls == old(doneCalls) + (if hasDoneCallback then 1 else 0)
    {
      hide Key, Reader.Valid, Reader.Upcoming, Merge.Refill, Merge.QueueValid, MergeRuns.Run, Owning, Linked, Aligned,
        Tracks, Matches;
      LinkedFacts();
      MergeRuns.RunThen(history, MergeRuns.Next);
      history := history + [MergeRuns.Next];
      RequeueCurrent();
      if queue == [] {
        GoIdle();
        return EMPTY;
      }
      Pop();
      CurrentShows();
      return current.packet;
    }

    /** The first half of readNextPacket: the current reader goes back to the queue. */
    method RequeueCurrent()
      requires Linked()
      modifies Repr
      ensures Owning() && Merge.QueueValid(model) && Aligned() && Tracks({})
      ensures model == Merge.Requeue(old(model)) && Repr == old(Repr) && storage == old(storage)
      ensures current == old(current) && history == old(history)
      ensures hasDoneCallback == old(hasDoneCallback) && doneCalls == old(doneCalls)
    {
      hide Key, Reader.Valid, Reader.Upcoming, Merge.Refill, Merge.Sorted;
      if current.reader != null {
        ReturnToQueue(current.reader, model.current.value.id, {});
      }
    }

    lemma MatchFacts(c: Context, h: Merge.Head)
      requires Matches(c, h)
      ensures h.id < |storage| && c.reader == storage[h.id]
    {
    }

    lemma LinkedFacts()
      requires Linked()
      ensures this in Repr && Usable(codecs) && Merge.QueueValid(model) && |model.tails| == |storage|
      ensures Owning() && Tracks(CurrentId()) && CurrentMatches()
    {
      hide Key, Merge.Sorted;
    }

    lemma CurrentShows()
      requires Linked() && model.current.Some?
      ensures model.current.value.id < |storage|
      ensures current.packet.data == storage[model.current.value.id].buffer
      ensures current.packet.Shows(model.current.value.record)
    {
      hide Key, Reader.Valid, Reader.Upcoming, Merge.Sorted;
    }

    /** Nothing is pending: reset the current context and notify. */
    method GoIdle()
      requires Owning() && Merge.QueueValid(model) && Aligned() && Tracks({}) && queue == []
      modifies this`current, this`model, this`doneCalls
      ensures Linked() && old(model).queue == [] && model == old(model).(current := None)
      ensures doneCalls == old(doneCalls) + (if hasDoneCallback then 1 else 0)
    {
      hide Key, Reader.Valid, Reader.Upcoming;
      current := current.(reader := null);
      model := model.(current := None);
      if hasDoneCallback {
        doneCalls := doneCalls + 1;
      }
    }

    /** Taking the first node out of the queue. */
    method Pop()
      requires Owning() && Merge.QueueValid(model) && Aligned() && Tracks({}) && queue != []
      modifies this`current, this`queue, this`model
      ensures Linked() && queue == old(queue)[1..] && old(model).queue != []
      ensures model == Merge.State(old(model).tails, old(model).queue[1..], Some(old(model).queue[0]))
      ensures Matches(current, model.current.value)
    {
      hide *;
      ghost var was := model;
      SameLength();
      current := queue[0].context;
      queue := queue[1..];
      model := Merge.State(was.tails, was.queue[1..], Some(was.queue[0]));
      PoppedAligned();
      PoppedTracks();
      AllLinked();
    }

    lemma SameLength()
      requires Aligned()
      ensures |queue| == |model.queue|
    {
      hide Matches, Key;
    }

    twostate lemma PoppedAligned()
      requires old(Merge.QueueValid(model) && Aligned() && queue != [] && |queue| == |model.queue|)
      requires storage == old(storage) && Repr == old(Repr)
      requires forall o: object :: o in old(Repr) && o != this ==> unchanged(o)
      requires current == old(queue)[0].context && queue == old(queue)[1..]
      requires model == Merge.State(old(model).tails, old(model).queue[1..], Some(old(model).queue[0]))
      ensures Merge.QueueValid(model) && Aligned() && CurrentMatches() && CurrentApart()
      ensures Matches(current, model.current.value)
    {
      hide Key, Merge.Sorted;
      assert old(Matches(queue[0].context, model.queue[0]));
      Merge.PopQueue(old(model));
      forall k | 0 <= k < |queue|
        ensures queue[k].key == Key(model.queue[k].record) && Matches(queue[k].context, model.queue[k])
      {
        assert old(Matches(queue[k + 1].context, model.queue[k + 1]));
      }
    }

    twostate lemma PoppedTracks()
      requires old(Owning() && Merge.QueueValid(model) && Tracks({}) && model.queue != []) && Owning()
      requires storage == old(storage) && Repr == old(Repr)
      requires forall o: object :: o in old(Repr) && o != this ==> unchanged(o)
      requires model == Merge.State(old(model).tails, old(model).queue[1..], Some(old(model).queue[0]))
      ensures Tracks(CurrentId())
    {
      hide Reader.Valid, Reader.Upcoming, Merge.Sorted;
      Merge.PopQueue(old(model));
      assert forall i :: Merge.Queued(old(model), i) <==> Merge.Queued(model, i) || i in CurrentId();
    }
  }

  /** The two facts FindUpperBound ensures determine its result. */
  lemma BoundIsUnique(queue: seq<Merge.Head>, key: nat, p: nat)
    requires p <= |queue|
    requires forall j :: 0 <= j < p ==> Key(queue[j].record) <= key
    requires p < |queue| ==> key < Key(queue[p].record)
    ensures p == Merge.UpperBound(queue, key)
  {
    hide Key;
  }
}
