/** The capacity bound that the reassembler's class comment promises, and exactly when a push keeps it. */
module ReassemblyCapacity {
  import opened Prelude
  import opened Reassembly
  import opened ReassemblyRuns

  /** What the class comment promises: buffered and stored bytes together fit the capacity. */
  ghost predicate WithinCapacity(r: Reassembler)
    requires r.out.Valid()
  {
    !Overflows(r, r.store)
  }

  /** The promise fails: three bytes stored in a reassembler of capacity two. */
  lemma {:induction false} CapacityExceeded()
    ensures var r := Push(NewReassembler(2), [7, 8, 9], 1, false, Oracle([], 0)); !WithinCapacity(r)
  {
    var r0 := NewReassembler(2);
    var store: Store := map[1 := [7, 8, 9]];
    assert Absorb(r0, [7, 8, 9], 1, []) == store;
    assert Push(r0, [7, 8, 9], 1, false, Oracle([], 0)).store == KeysPast(store, 0) == store;
    TotalRemove(store, 1);
  }

  // ---------------------------------------------------------------- totals

  lemma {:induction false} TotalUpdate(store: Store, k: nat, s: Bytes)
    ensures Total(store[k := s]) == Total(store) - (if k in store then |store[k]| else 0) + |s|
  {
    TotalRemove(store[k := s], k);
    if k in store {
      TotalRemove(store, k);
      assert store[k := s] - {k} == store - {k};
    } else {
      assert store[k := s] - {k} == store;
    }
  }

  lemma {:induction false} TotalZeroIff(store: Store)
    ensures Total(store) == 0 <==> forall k :: k in store ==> store[k] == []
    decreases |store|
  {
    if k: nat :| k in store {
      TotalRemove(store, k);
      TotalZeroIff(store - {k});
      if Total(store) == 0 {
        forall j | j in store
          ensures store[j] == []
        {
          assert j != k ==> j in store - {k} && (store - {k})[j] == store[j];
        }
      }
    }
  }

  /** Dropping the keys up to `e` loses nothing when they hold nothing. */
  lemma {:induction false} TotalPast(store: Store, e: nat)
    requires forall k :: k in store && k <= e ==> store[k] == []
    ensures Total(KeysPast(store, e)) == Total(store)
    decreases |store|
  {
    if k: nat :| k in store && k <= e {
      var rest := store - {k};
      TotalRemove(store, k);
      assert KeysPast(rest, e) == KeysPast(store, e);
      TotalPast(rest, e);
    } else {
      assert KeysPast(store, e) == store;
    }
  }

  /** Nothing but empty strings starts before `w`. */
  ghost predicate AtOrPast(store: Store, w: nat) {
    forall k :: k in store && k < w ==> store[k] == []
  }

  lemma {:induction false} AtOrPastStep(store: Store, w: nat, w1: nat)
    requires Disjoint(store) && AtOrPast(store, w) && w in store && store[w] != [] && w1 == w + |store[w]|
    ensures Disjoint(store - {w}) && AtOrPast(store - {w}, w1)
  {
  }

  lemma {:induction false} KeptMore(store: Store, w: nat, w1: nat, e: nat, kept: nat)
    requires w in store && w1 == w + |store[w]| <= e && kept == Total(KeysPast(store - {w}, e))
    requires e - w1 + kept == Total(store - {w})
    ensures e - w + Total(KeysPast(store, e)) == Total(store)
  {
    TotalRemove(store, w);
    assert KeysPast(store, e) == KeysPast(store - {w}, e);
  }

  lemma {:induction false} NothingGathered(store: Store, w: nat)
    requires AtOrPast(store, w) && (w in store ==> store[w] == [])
    ensures Total(KeysPast(store, w)) == Total(store)
  {
    TotalPast(store, w);
  }

  lemma {:induction false} ReachStep(store: Store, w: nat, rest: Store, w1: nat)
    requires w in store && store[w] != [] && rest == store - {w} && w1 == w + |store[w]|
    ensures Reach(store, w) == Reach(rest, w1) && |rest| < |store|
  {
  }

  /** The bytes up to where the gathered ones end, and the bytes kept past them, are all the bytes there are. */
  lemma {:induction false} GatheredPlusKept(store: Store, w: nat, e: nat)
    requires Disjoint(store) && AtOrPast(store, w) && e == Reach(store, w)
    ensures w <= e && e - w + Total(KeysPast(store, e)) == Total(store)
    decreases |store|
  {
    if w !in store || store[w] == [] {
      NothingGathered(store, w);
    } else {
      var rest, w1 := store - {w}, w + |store[w]|;
      AtOrPastStep(store, w, w1);
      ReachStep(store, w, rest, w1);
      GatheredPlusKept(rest, w1, e);
      KeptMore(store, w, w1, e, Total(KeysPast(rest, e)));
    }
  }

  // ---------------------------------------------------------------- one push

  /** There is no excess, or the one string the overflow branch looks at can give up all of it. */
  ghost predicate TrimSuffices(r: Reassembler, store: Store, o: Oracle)
    requires r.out.Valid()
  {
    var excess := r.out.Buffered() + Total(store) - r.out.capacity;
    excess <= 0 || (o.order != [] && o.victim in store && excess <= |store[o.victim]|)
  }

  lemma {:induction false} TrimSufficesIff(r: Reassembler, store: Store, o: Oracle)
    requires r.out.Valid()
    ensures TrimSuffices(r, store, o) <==> !Overflows(r, MakeRoom(r, store, o))
  {
    if Overflows(r, store) && o.order != [] {
      var excess := r.out.Buffered() + Total(store) - r.out.capacity;
      TotalUpdate(store, o.victim, Trim(store, o.victim, excess)[o.victim]);
    }
  }

  /** The bytes that follow the written ones fill the buffer, and nothing is stored past what they fill. */
  ghost predicate Spills(r: Reassembler, store: Store)
    requires r.out.Valid()
  {
    && |Gather(store, r.willing)| > r.out.Room()
    && forall k :: k in store && k > r.willing + r.out.Room() ==> store[k] == []
  }

  lemma {:induction false} FlushWithinWhole(r: Reassembler, e: nat)
    requires r.out.Valid() && !r.out.ended && Disjoint(r.store) && AtOrPast(r.store, r.willing)
    requires e == r.willing + |Gather(r.store, r.willing)| <= r.willing + r.out.Room()
    ensures WithinCapacity(Flush(r)) <==> !Overflows(r, r.store)
  {
    ReachIsGathered(r.store, r.willing);
    GatheredPlusKept(r.store, r.willing, e);
    assert Flush(r).store == KeysPast(r.store, e);
    assert Flush(r).out.Buffered() == r.out.Buffered() + (e - r.willing);
  }

  lemma {:induction false} FlushWithinFull(r: Reassembler, e: nat)
    requires r.out.Valid() && !r.out.ended
    requires e == r.willing + r.out.Room() < r.willing + |Gather(r.store, r.willing)|
    ensures WithinCapacity(Flush(r)) <==> forall k :: k in r.store && k > e ==> r.store[k] == []
  {
    var kept := KeysPast(r.store, e);
    TotalZeroIff(kept);
    assert Flush(r).store == kept;
    assert Flush(r).out.Buffered() == r.out.capacity;
    assert forall k :: k in kept <==> k in r.store && k > e;
  }

  lemma {:induction false} FlushWithinIff(r: Reassembler)
    requires r.out.Valid() && !r.out.ended && Disjoint(r.store) && AtOrPast(r.store, r.willing)
    ensures WithinCapacity(Flush(r)) <==> !Overflows(r, r.store) || Spills(r, r.store)
  {
    var g := |Gather(r.store, r.willing)|;
    if g <= r.out.Room() {
      FlushWithinWhole(r, r.willing + g);
    } else {
      GatherTotal(r.store, r.willing);
      FlushWithinFull(r, r.willing + r.out.Room());
    }
  }

  lemma {:induction false} FreshStoreAtOrPast(r: Reassembler, data: Bytes, index: nat, o: Oracle)
    requires r.out.Valid() && Past(r.store, r.willing) && Disjoint(r.store) && Fits(o, r.store)
    requires index + |data| > r.willing && data != []
    ensures AtOrPast(MakeRoom(r, Absorb(r, data, index, o.order), o), r.willing)
  {
    var (d, i) := Fresh(r, data, index);
    FreshRange(r, data, index);
    var m := MergeAll(r.store, o.order, d, i);
    MergeAllHull(r.store, o.order, d, i);
    MergeAllUntouched(r.store, o.order, d, i);
    HullAtOrPast(r.store, i, i + |d|, m.index, m.End(), r.willing);
  }

  /** Making room for bytes already written costs a stored string at most its end. */
  lemma {:induction false} StaleRoom(r: Reassembler, store: Store, data: Bytes, index: nat, o: Oracle)
    requires r.out.Valid() && Past(r.store, r.willing) && Fits(o, r.store)
    requires index <= r.willing && store == r.store[index := data]
    ensures Total(KeysPast(MakeRoom(r, store, o), r.willing)) <= Total(r.store)
  {
    var room, v := MakeRoom(r, store, o), o.victim;
    if room == store {
      assert KeysPast(room, r.willing) == r.store;
    } else {
      assert v in r.store && |room[v]| <= |r.store[v]|;
      assert KeysPast(room, r.willing) == r.store[v := room[v]];
      TotalUpdate(r.store, v, room[v]);
    }
  }

  /** Bytes already written never break the promise. */
  lemma {:induction false} StalePushKeepsCapacity(r: Reassembler, data: Bytes, index: nat, eof: bool, o: Oracle)
    requires r.out.Valid() && Past(r.store, r.willing) && Fits(o, r.store)
    requires index + |data| <= r.willing && WithinCapacity(r)
    ensures WithinCapacity(Push(r, data, index, eof, o))
  {
    if data != [] {
      var r0, store := NoteEof(r, data, index, eof), r.store[index := data];
      MergesNothing(r.store, o.order, data, index, r.willing);
      assert Absorb(r0, data, index, o.order) == store;
      StaleRoom(r0, store, data, index, o);
      FlushNothing(r0.(store := MakeRoom(r0, store, o)));
    }
  }

  lemma {:induction false} FlushNothing(r: Reassembler)
    requires r.out.Valid() && (r.willing in r.store ==> r.store[r.willing] == [])
    ensures Flush(r).out.Buffered() == r.out.Buffered() && Flush(r).out.capacity == r.out.capacity
    ensures Flush(r).store == KeysPast(r.store, r.willing)
  {
  }

  lemma {:induction false} MergesNothing(store: Store, order: seq<nat>, d: Bytes, i: nat, w: nat)
    requires Past(store, w) && i + |d| <= w && d != []
    ensures MergeAll(store, order, d, i) == Merged(d, i, store)
    decreases order
  {
    if order != [] {
      MergesNothing(store, order[1..], d, i, w);
    }
  }

  /**
   * A push with a byte not yet written keeps the promise exactly when the trimmed string covers the excess,
   * or when the excess follows the written bytes directly, so that the flush drops what the buffer cannot take.
   */
  lemma {:induction false} FreshPushWithinIff(r: Reassembler, data: Bytes, index: nat, eof: bool, o: Oracle,
                                              source: Bytes)
    requires Inv(r, source) && Honest(source, data, index, eof) && Fits(o, r.store)
    requires index + |data| > r.willing && data != []
    ensures var store := Absorb(r, data, index, o.order);
            WithinCapacity(Push(r, data, index, eof, o)) <==>
              TrimSuffices(r, store, o) || Spills(r, MakeRoom(r, store, o))
  {
    var store := Absorb(r, data, index, o.order);
    var room := MakeRoom(r, store, o);
    MakeRoomDisjoint(r, data, index, o);
    FreshStoreAtOrPast(r, data, index, o);
    TrimSufficesIff(r, store, o);
    PushFlushes(r, data, index, eof, o, room);
    FlushWithinIff(r.(store := room));
  }

  lemma {:induction false} PushFlushes(r: Reassembler, data: Bytes, index: nat, eof: bool, o: Oracle, room: Store)
    requires r.out.Valid() && data != [] && room == MakeRoom(r, Absorb(r, data, index, o.order), o)
    ensures WithinCapacity(Push(r, data, index, eof, o)) <==> WithinCapacity(Flush(r.(store := room)))
  {
    var r0 := NoteEof(r, data, index, eof);
    assert MakeRoom(r0, Absorb(r0, data, index, o.order), o) == room;
    assert Flush(r0.(store := room)) == Flush(r.(store := room)).(eofSeen := r0.eofSeen, total := r0.total);
  }

  // ---------------------------------------------------------------- whole runs

  ghost predicate KeepsCapacity(r: Reassembler, e: Event)
    requires r.out.Valid()
  {
    e.PushEvent? && e.data != [] && e.index + |e.data| > r.willing ==>
      var store := Absorb(r, e.data, e.index, e.o.order);
      TrimSuffices(r, store, e.o) || Spills(r, MakeRoom(r, store, e.o))
  }

  ghost predicate AlwaysKeeps(r: Reassembler, es: seq<Event>)
    requires r.out.Valid()
    decreases es
  {
    es != [] ==> KeepsCapacity(r, es[0]) && AlwaysKeeps(Step(r, es[0]), es[1..])
  }

  ghost predicate AlwaysWithin(r: Reassembler, es: seq<Event>)
    requires r.out.Valid()
    decreases es
  {
    WithinCapacity(r) && (es != [] ==> AlwaysWithin(Step(r, es[0]), es[1..]))
  }

  lemma {:induction false} StepWithinIff(r: Reassembler, e: Event, source: Bytes)
    requires Inv(r, source) && WithinCapacity(r)
    requires e.PushEvent? ==> Honest(source, e.data, e.index, e.eof) && Fits(e.o, r.store)
    ensures WithinCapacity(Step(r, e)) <==> KeepsCapacity(r, e)
  {
    if e.PushEvent? && e.data != [] {
      if e.index + |e.data| > r.willing {
        FreshPushWithinIff(r, e.data, e.index, e.eof, e.o, source);
      } else {
        StalePushKeepsCapacity(r, e.data, e.index, e.eof, e.o);
      }
    }
  }

  /** A run stays within the promised capacity exactly when every push of it keeps the promise. */
  lemma {:induction false} RunWithinIff(r: Reassembler, es: seq<Event>, source: Bytes)
    requires Inv(r, source) && Truthful(r, es, source) && WithinCapacity(r)
    ensures AlwaysWithin(r, es) <==> AlwaysKeeps(r, es)
    decreases es
  {
    if es != [] {
      StepInv(r, es[0], source);
      StepWithinIff(r, es[0], source);
      if WithinCapacity(Step(r, es[0])) {
        RunWithinIff(Step(r, es[0]), es[1..], source);
      }
    }
  }
}
