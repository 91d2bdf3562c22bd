/** Whole runs of the reassembler: safety for every run, exactness for runs that never overflow. */
module ReassemblyRuns {
  import opened Prelude
  import opened Reassembly

  // ---------------------------------------------------------------- one push, exactly

  ghost predicate Clean(store: Store) {
    forall k :: k in store ==> store[k] != []
  }

  /** Position `p` was received: it is written out or stored. */
  ghost predicate Has(r: Reassembler, p: nat) {
    p < r.willing || InStore(r.store, p)
  }

  lemma {:induction false} InsertHasOnly(store: Store, lo: nat, hi: nat, m: Merged, p: nat)
    requires NoGap(store, lo, hi, m.index, m.End()) && Untouched(store, lo, hi, m.rest)
    requires InStore(m.rest[m.index := m.data], p)
    ensures InStore(store, p) || lo <= p < hi
  {
    var after := m.rest[m.index := m.data];
    var k :| k in after && k <= p < k + |after[k]|;
    if k != m.index {
      assert k in store && k <= p < k + |store[k]|;
    }
  }

  lemma {:induction false} InsertHasAlso(store: Store, lo: nat, hi: nat, m: Merged, p: nat)
    requires Disjoint(store) && lo < hi
    requires Hull(store, lo, hi, m.index, m.End()) && Untouched(store, lo, hi, m.rest)
    requires InStore(store, p)
    ensures InStore(m.rest[m.index := m.data], p)
  {
    var after := m.rest[m.index := m.data];
    var k: nat :| k in store && k <= p < k + |store[k]|;
    if Overlaps(k, store[k], lo, hi) {
      assert Touched(store, k, lo, hi);
      assert m.index in after && m.index <= p < m.index + |after[m.index]|;
    } else {
      HullAvoids(store, lo, hi, m.index, m.End(), k);
      assert k in after && k <= p < k + |after[k]|;
    }
  }

  lemma {:induction false} InsertHas(store: Store, lo: nat, hi: nat, m: Merged, p: nat)
    requires Disjoint(store) && lo < hi
    requires Hull(store, lo, hi, m.index, m.End()) && NoGap(store, lo, hi, m.index, m.End())
    requires Untouched(store, lo, hi, m.rest)
    ensures InStore(m.rest[m.index := m.data], p) <==> InStore(store, p) || lo <= p < hi
  {
    var after := m.rest[m.index := m.data];
    if InStore(after, p) {
      InsertHasOnly(store, lo, hi, m, p);
    }
    if lo <= p < hi {
      assert m.index in after && m.index <= p < m.index + |after[m.index]|;
    } else if InStore(store, p) {
      InsertHasAlso(store, lo, hi, m, p);
    }
  }

  lemma {:induction false} AbsorbHas(r: Reassembler, data: Bytes, index: nat, order: seq<nat>, p: nat)
    requires Disjoint(r.store) && data != []
    requires forall k :: k in r.store ==> k in order
    ensures p < r.willing || InStore(Absorb(r, data, index, order), p) <==> Has(r, p) || index <= p < index + |data|
  {
    var (d, i) := Fresh(r, data, index);
    MergeAllHull(r.store, order, d, i);
    MergeAllNoGap(r.store, order, d, i);
    MergeAllUntouched(r.store, order, d, i);
    InsertHas(r.store, i, i + |d|, MergeAll(r.store, order, d, i), p);
  }

  lemma {:induction false} FlushHas(r: Reassembler, p: nat)
    requires r.out.Valid() && Disjoint(r.store) && Ready(r.store, r.willing)
    requires r.out.Accepts(|Gather(r.store, r.willing)|) == |Gather(r.store, r.willing)|
    ensures Has(Flush(r), p) <==> Has(r, p)
  {
    var w := Reach(r.store, r.willing);
    ReachIsGathered(r.store, r.willing);
    ReachSwallows(r.store, r.willing);
    assert Flush(r).willing == w;
    if p < w {
      if p >= r.willing {
        GatherNoGap(r.store, r.willing, p);
      }
    } else if InStore(r.store, p) {
      var k :| k in r.store && k <= p < k + |r.store[k]|;
      assert k in Flush(r).store && k <= p < k + |Flush(r).store[k]|;
    }
  }

  /** Where the overflow test does not fire, all that is contiguous fits the output. */
  lemma {:induction false} GatherFits(r: Reassembler, source: Bytes)
    requires Core(r, source) && !Overflows(r, r.store)
    ensures r.out.Accepts(|Gather(r.store, r.willing)|) == |Gather(r.store, r.willing)|
  {
    GatherTotal(r.store, r.willing);
    GatherSlice(r.store, r.willing, source);
  }

  /** The overflow test of this push. */
  ghost predicate PushOverflows(r: Reassembler, data: Bytes, index: nat, eof: bool, o: Oracle)
    requires r.out.Valid()
  {
    var r0 := NoteEof(r, data, index, eof);
    data != [] && Overflows(r0, Absorb(r0, data, index, o.order))
  }

  /** A push that does not overflow loses nothing and invents nothing. */
  lemma {:induction false} PushHas(r: Reassembler, data: Bytes, index: nat, eof: bool, o: Oracle, source: Bytes,
                                   p: nat)
    requires Inv(r, source) && Honest(source, data, index, eof) && Fits(o, r.store)
    requires !PushOverflows(r, data, index, eof, o)
    ensures Has(Push(r, data, index, eof, o), p) <==> Has(r, p) || index <= p < index + |data|
  {
    if data != [] {
      var r0 := NoteEof(r, data, index, eof);
      var store := Absorb(r0, data, index, o.order);
      var r1 := r0.(store := store);
      AbsorbDisjoint(r0, data, index, o.order);
      AbsorbConsistent(r0, data, index, o.order, source);
      AbsorbHas(r0, data, index, o.order, p);
      assert Core(r1, source);
      GatherFits(r1, source);
      FlushHas(r1, p);
    }
  }

  // ---------------------------------------------------------------- order independence

  lemma {:induction false} HullUnique(store: Store, lo: nat, hi: nat, l: nat, h: nat, l': nat, h': nat)
    requires Hull(store, lo, hi, l, h) && Hull(store, lo, hi, l', h')
    ensures l == l' && h == h'
  {
  }

  lemma {:induction false} MergeAnyOrder(store: Store, order: seq<nat>, order': seq<nat>, d: Bytes, i: nat,
                                         source: Bytes)
    requires d != [] && IsSlice(source, d, i) && Consistent(store, source) && Disjoint(store) && Clean(store)
    requires forall k :: k in store ==> k in order && k in order'
    ensures MergeAll(store, order, d, i) == MergeAll(store, order', d, i)
  {
    var m, m' := MergeAll(store, order, d, i), MergeAll(store, order', d, i);
    MergeAllSlice(store, order, d, i, source);
    MergeAllSlice(store, order', d, i, source);
    MergeAllHull(store, order, d, i);
    MergeAllHull(store, order', d, i);
    HullUnique(store, i, i + |d|, m.index, m.End(), m'.index, m'.End());
    MergeAllUntouched(store, order, d, i);
    MergeAllUntouched(store, order', d, i);
    assert m.rest == m'.rest;
  }

  lemma {:induction false} AbsorbAnyOrder(r: Reassembler, data: Bytes, index: nat, order: seq<nat>, order': seq<nat>,
                                          source: Bytes)
    requires Consistent(r.store, source) && Disjoint(r.store) && Clean(r.store)
    requires data != [] && IsSlice(source, data, index)
    requires forall k :: k in r.store ==> k in order && k in order'
    ensures Absorb(r, data, index, order) == Absorb(r, data, index, order')
    ensures Clean(Absorb(r, data, index, order))
  {
    var (d, i) := Fresh(r, data, index);
    FreshSlice(r, data, index, source);
    MergeAnyOrder(r.store, order, order', d, i, source);
    MergeAllHull(r.store, order, d, i);
    MergeAllUntouched(r.store, order, d, i);
  }

  lemma {:induction false} PushAnyOrder(r: Reassembler, data: Bytes, index: nat, eof: bool, o: Oracle, o': Oracle,
                                        source: Bytes)
    requires Inv(r, source) && Honest(source, data, index, eof) && Clean(r.store)
    requires Fits(o, r.store) && Fits(o', r.store)
    requires !PushOverflows(r, data, index, eof, o)
    ensures Push(r, data, index, eof, o) == Push(r, data, index, eof, o')
    ensures Clean(Push(r, data, index, eof, o).store)
  {
    if data != [] {
      AbsorbAnyOrder(NoteEof(r, data, index, eof), data, index, o.order, o'.order, source);
    }
  }

  // ---------------------------------------------------------------- runs

  /** A push by the network, or a read by the application. */
  datatype Event = PushEvent(data: Bytes, index: nat, eof: bool, o: Oracle) | ReadEvent(n: nat)

  ghost function Step(r: Reassembler, e: Event): (r': Reassembler)
    requires r.out.Valid()
    ensures r'.out.Valid()
  {
    match e
    case PushEvent(data, index, eof, o) => Push(r, data, index, eof, o)
    case ReadEvent(n) => r.(out := r.out.Read(n))
  }

  ghost function Run(r: Reassembler, es: seq<Event>): (r': Reassembler)
    requires r.out.Valid()
    ensures r'.out.Valid()
    decreases es
  {
    if es == [] then r else Run(Step(r, es[0]), es[1..])
  }

  /** Every push of the run tells the truth about `source`; the map order is free. */
  ghost predicate Truthful(r: Reassembler, es: seq<Event>, source: Bytes)
    requires r.out.Valid()
    decreases es
  {
    es == [] ||
    (&& (es[0].PushEvent? ==> Honest(source, es[0].data, es[0].index, es[0].eof) && Fits(es[0].o, r.store))
     && Truthful(Step(r, es[0]), es[1..], source))
  }

  ghost predicate NeverOverflows(r: Reassembler, es: seq<Event>)
    requires r.out.Valid()
    decreases es
  {
    es == [] ||
    (&& (es[0].PushEvent? ==> !PushOverflows(r, es[0].data, es[0].index, es[0].eof, es[0].o))
     && NeverOverflows(Step(r, es[0]), es[1..]))
  }

  ghost predicate Covered(es: seq<Event>, p: nat) {
    exists j :: 0 <= j < |es| && es[j].PushEvent? && es[j].index <= p < es[j].index + |es[j].data|
  }

  ghost predicate EofPushed(es: seq<Event>) {
    exists j :: 0 <= j < |es| && es[j].PushEvent? && es[j].eof
  }

  lemma {:induction false} CoveredFirst(es: seq<Event>, p: nat)
    requires es != []
    ensures Covered(es, p) <==>
            (es[0].PushEvent? && es[0].index <= p < es[0].index + |es[0].data|) || Covered(es[1..], p)
  {
    if Covered(es, p) {
      var j :| 0 <= j < |es| && es[j].PushEvent? && es[j].index <= p < es[j].index + |es[j].data|;
      if j > 0 {
        assert es[1..][j - 1] == es[j];
      }
    }
  }

  lemma {:induction false} StepInv(r: Reassembler, e: Event, source: Bytes)
    requires Inv(r, source)
    requires e.PushEvent? ==> Honest(source, e.data, e.index, e.eof) && Fits(e.o, r.store)
    ensures Inv(Step(r, e), source)
    ensures Step(r, e).eofSeen <==> r.eofSeen || (e.PushEvent? && e.eof)
  {
    if e.PushEvent? {
      PushInv(r, e.data, e.index, e.eof, e.o, source);
    }
  }

  lemma {:induction false} RunInv(r: Reassembler, es: seq<Event>, source: Bytes)
    requires Inv(r, source) && Truthful(r, es, source)
    ensures Inv(Run(r, es), source)
    ensures Run(r, es).eofSeen <==> r.eofSeen || EofPushed(es)
    decreases es
  {
    if es != [] {
      StepInv(r, es[0], source);
      RunInv(Step(r, es[0]), es[1..], source);
      if EofPushed(es) {
        var j :| 0 <= j < |es| && es[j].PushEvent? && es[j].eof;
        assert j > 0 ==> es[1..][j - 1] == es[j];
      }
    }
  }

  /** Safety, overflow or not: the output is a prefix of the source and ends exactly when it is all of it. */
  lemma {:induction false} RunSafe(capacity: nat, es: seq<Event>, source: Bytes)
    requires Truthful(NewReassembler(capacity), es, source)
    ensures var r := Run(NewReassembler(capacity), es);
            && r.out.written <= source
            && r.willing == r.bytesWrited == |r.out.written|
            && r.out.Buffered() <= r.out.capacity
            && Past(r.store, r.willing) && Disjoint(r.store)
            && (r.out.ended <==> EofPushed(es) && r.out.written == source)
  {
    RunInv(NewReassembler(capacity), es, source);
  }

  lemma {:induction false} RunHas(r: Reassembler, es: seq<Event>, source: Bytes, p: nat)
    requires Inv(r, source) && Truthful(r, es, source) && NeverOverflows(r, es)
    ensures Has(Run(r, es), p) <==> Has(r, p) || Covered(es, p)
    decreases es
  {
    if es != [] {
      var e := es[0];
      CoveredFirst(es, p);
      StepInv(r, e, source);
      if e.PushEvent? {
        PushHas(r, e.data, e.index, e.eof, e.o, source, p);
      }
      RunHas(Step(r, e), es[1..], source, p);
    }
  }

  /** Exactness without overflow: the output is the longest covered prefix, the store the rest of the union. */
  lemma {:induction false} RunExact(capacity: nat, es: seq<Event>, source: Bytes)
    requires Truthful(NewReassembler(capacity), es, source) && NeverOverflows(NewReassembler(capacity), es)
    ensures var r := Run(NewReassembler(capacity), es);
            && (forall p: nat :: p < |r.out.written| ==> Covered(es, p))
            && !Covered(es, |r.out.written|)
            && (forall p: nat :: p >= |r.out.written| ==> (InStore(r.store, p) <==> Covered(es, p)))
  {
    var r := Run(NewReassembler(capacity), es);
    RunInv(NewReassembler(capacity), es, source);
    forall p: nat
      ensures Has(r, p) <==> Covered(es, p)
    {
      RunHas(NewReassembler(capacity), es, source, p);
    }
    assert !Has(r, r.willing);
  }

  /** Two runs with the same pushes and reads, each with its own map orders. */
  ghost predicate SameButOrder(es: seq<Event>, es': seq<Event>) {
    |es| == |es'| && forall j :: 0 <= j < |es| ==>
      (if es[j].PushEvent? then
         es'[j].PushEvent? && es'[j].(o := es[j].o) == es[j]
       else es'[j] == es[j])
  }

  /** Without overflow the state a run ends in does not depend on the map's iteration order. */
  lemma {:induction false} RunAnyOrder(r: Reassembler, es: seq<Event>, es': seq<Event>, source: Bytes)
    requires Inv(r, source) && Clean(r.store) && SameButOrder(es, es')
    requires Truthful(r, es, source) && NeverOverflows(r, es) && Truthful(r, es', source)
    ensures Run(r, es) == Run(r, es')
    decreases es
  {
    if es != [] {
      var e, e' := es[0], es'[0];
      StepInv(r, e, source);
      if e.PushEvent? {
        PushAnyOrder(r, e.data, e.index, e.eof, e.o, e'.o, source);
      }
      assert SameButOrder(es[1..], es'[1..]);
      RunAnyOrder(Step(r, e), es[1..], es'[1..], source);
    }
  }
}
