/** What one `push_substring` does to the reassembler's state (libsponge/stream_reassembler.cc), as functions. */
module Reassembly {
  import opened Prelude
  import opened ByteStreams

  type Store = map<nat, Bytes>

  /** The unordered map's iteration order, and the key the overflow branch trims. Both are arbitrary. */
  datatype Oracle = Oracle(order: seq<nat>, victim: nat)

  datatype Reassembler = Reassembler(out: Stream, willing: nat, store: Store, eofSeen: bool, total: nat,
                                     bytesWrited: nat)

  function NewReassembler(capacity: nat): Reassembler {
    Reassembler(EmptyStream(capacity), 0, map[], false, 0, 0)
  }

  /** The overlap test on inclusive ends. A stored empty string overlaps a range that straddles its key. */
  predicate Overlaps(k: nat, s: Bytes, lo: nat, hi: nat) {
    lo <= k + |s| - 1 && k <= hi - 1
  }

  /** Both strings laid over one another, the second on top, zero where neither reaches. */
  function Merge(d: Bytes, i: nat, s: Bytes, k: nat): Bytes {
    var lo := Min(i, k);
    seq(Max(i + |d|, k + |s|) - lo, j requires 0 <= j =>
      if k <= lo + j < k + |s| then s[lo + j - k]
      else if i <= lo + j < i + |d| then d[lo + j - i]
      else 0)
  }

  datatype Merged = Merged(data: Bytes, index: nat, rest: Store) {
    function End(): nat {
      index + |data|
    }
  }

  /** One pass over the keys in the given order, absorbing every stored string the running one overlaps. */
  function MergeAll(store: Store, order: seq<nat>, d: Bytes, i: nat): Merged {
    if order == [] then Merged(d, i, store)
    else if order[0] in store && Overlaps(order[0], store[order[0]], i, i + |d|) then
      MergeAll(store - {order[0]}, order[1..], Merge(d, i, store[order[0]], order[0]), Min(i, order[0]))
    else MergeAll(store, order[1..], d, i)
  }

  /** Plain sum of the stored lengths. */
  ghost function Total(store: Store): nat {
    if store == map[] then 0 else var k :| k in store; |store[k]| + Total(store - {k})
  }

  /** The overflow branch: only one old key is looked at; it loses `excess` bytes or all of them, but stays. */
  function Trim(store: Store, victim: nat, excess: nat): Store {
    var s := if victim in store then store[victim] else [];
    store[victim := if |s| <= excess then [] else s[..|s| - excess]]
  }

  /** The stored strings that follow `w` without a gap. */
  function Gather(store: Store, w: nat): Bytes
    decreases |store|
  {
    if w in store && store[w] != [] then store[w] + Gather(store - {w}, w + |store[w]|) else []
  }

  /** Where the strings that follow `w` without a gap end. */
  function Reach(store: Store, w: nat): nat
    decreases |store|
  {
    if w in store && store[w] != [] then Reach(store - {w}, w + |store[w]|) else w
  }

  function KeysPast(store: Store, w: nat): Store {
    map k | k in store && k > w :: store[k]
  }

  /** Everything the flush loop does: write what is contiguous, drop every key that is not past `willing`. */
  function Flush(r: Reassembler): Reassembler
    requires r.out.Valid()
  {
    var g := Gather(r.store, r.willing);
    var n := r.out.Accepts(|g|);
    r.(out := r.out.Write(g), willing := r.willing + n, bytesWrited := r.bytesWrited + n,
       store := KeysPast(r.store, r.willing + n))
  }

  function Finish(r: Reassembler): Reassembler {
    if r.eofSeen && r.bytesWrited == r.total then r.(out := r.out.EndInput()) else r
  }

  function NoteEof(r: Reassembler, data: Bytes, index: nat, eof: bool): Reassembler {
    if eof then r.(eofSeen := true, total := index + |data|) else r
  }

  /** The part of a push that is not yet written, and where it starts; a wholly stale push is left alone. */
  function Fresh(r: Reassembler, data: Bytes, index: nat): (Bytes, nat) {
    if index < r.willing && index + |data| - 1 >= r.willing then (data[r.willing - index..], r.willing)
    else (data, index)
  }

  function Absorb(r: Reassembler, data: Bytes, index: nat, order: seq<nat>): Store {
    var (d, i) := Fresh(r, data, index);
    var m := MergeAll(r.store, order, d, i);
    m.rest[m.index := m.data]
  }

  /** The overflow test of a push. */
  ghost predicate Overflows(r: Reassembler, store: Store)
    requires r.out.Valid()
  {
    r.out.Buffered() + Total(store) > r.out.capacity
  }

  ghost function MakeRoom(r: Reassembler, store: Store, o: Oracle): Store
    requires r.out.Valid()
  {
    if Overflows(r, store) && o.order != [] then
      Trim(store, o.victim, r.out.Buffered() + Total(store) - r.out.capacity)
    else store
  }

  /** An oracle that fits a store: the order lists exactly the keys, the victim is one of them. */
  ghost predicate Fits(o: Oracle, store: Store) {
    && (forall k :: k in store <==> k in o.order)
    && (o.order != [] ==> o.victim in o.order)
  }

  ghost function Push(r: Reassembler, data: Bytes, index: nat, eof: bool, o: Oracle): (r': Reassembler)
    requires r.out.Valid()
    ensures r'.out.Valid()
  {
    var r0 := NoteEof(r, data, index, eof);
    if data == [] then Finish(r0)
    else Finish(Flush(r0.(store := MakeRoom(r0, Absorb(r0, data, index, o.order), o))))
  }

  // ---------------------------------------------------------------- invariants

  predicate IsSlice(source: Bytes, d: Bytes, i: nat) {
    i + |d| <= |source| && d == source[i..i + |d|]
  }

  ghost predicate Consistent(store: Store, source: Bytes) {
    forall k :: k in store ==> IsSlice(source, store[k], k)
  }

  /** Stored strings occupy disjoint ranges; an empty string may sit anywhere. */
  ghost predicate Disjoint(store: Store) {
    forall j, k :: j in store && k in store && j < k && store[k] != [] ==> j + |store[j]| <= k
  }

  /** Some stored string covers position `p`. */
  ghost predicate InStore(store: Store, p: nat) {
    exists k :: k in store && k <= p < k + |store[k]|
  }

  ghost predicate Past(store: Store, w: nat) {
    forall k :: k in store ==> k > w
  }

  ghost predicate Inv(r: Reassembler, source: Bytes) {
    && r.out.Valid()
    && r.willing == r.bytesWrited == |r.out.written|
    && r.out.written <= source
    && Past(r.store, r.willing)
    && Disjoint(r.store)
    && Consistent(r.store, source)
    && (r.eofSeen ==> r.total == |source|)
    && (r.out.ended <==> r.eofSeen && r.bytesWrited == r.total)
  }

  /** A push that tells the truth about `source`. An empty push that carries no eof may claim any index. */
  ghost predicate Honest(source: Bytes, data: Bytes, index: nat, eof: bool) {
    && (data != [] || eof ==> IsSlice(source, data, index))
    && (eof ==> index + |data| == |source|)
  }

  // ---------------------------------------------------------------- merging

  lemma {:induction false} MergeSlice(source: Bytes, d: Bytes, i: nat, s: Bytes, k: nat)
    requires IsSlice(source, d, i) && IsSlice(source, s, k) && d != []
    requires Overlaps(k, s, i, i + |d|)
    ensures IsSlice(source, Merge(d, i, s, k), Min(i, k))
    ensures Min(i, k) + |Merge(d, i, s, k)| == Max(i + |d|, k + |s|)
  {
  }

  ghost predicate Touched(store: Store, k: nat, lo: nat, hi: nat) {
    k in store && Overlaps(k, store[k], lo, hi)
  }

  /** `l..h` contains `lo..hi` and every stored range it touches. */
  ghost predicate Bounds(store: Store, lo: nat, hi: nat, l: nat, h: nat) {
    l <= lo && hi <= h && forall k: nat :: Touched(store, k, lo, hi) ==> l <= k && k + |store[k]| <= h
  }

  /** `l..h` is the least such range. */
  ghost predicate Hull(store: Store, lo: nat, hi: nat, l: nat, h: nat) {
    Bounds(store, lo, hi, l, h) && forall l': nat, h': nat :: Bounds(store, lo, hi, l', h') ==> l' <= l && h <= h'
  }

  ghost predicate NoGap(store: Store, lo: nat, hi: nat, l: nat, h: nat) {
    forall p: nat :: l <= p < h ==> lo <= p < hi || InStore(store, p)
  }

  /** What stays in the store: exactly the strings the push does not touch. */
  ghost predicate Untouched(store: Store, lo: nat, hi: nat, rest: Store) {
    && (forall k :: k in rest ==> k in store && rest[k] == store[k])
    && (forall k :: k in store && store[k] != [] ==> (k in rest <==> !Overlaps(k, store[k], lo, hi)))
  }

  /** Growing the range over one touched string touches no other string. */
  lemma {:induction false} SameTouched(store: Store, k0: nat, lo: nat, hi: nat)
    requires Disjoint(store) && lo < hi && Touched(store, k0, lo, hi)
    ensures forall k: nat :: Touched(store - {k0}, k, lo, hi) ==>
              Touched(store - {k0}, k, Min(lo, k0), Max(hi, k0 + |store[k0]|))
    ensures forall k: nat :: Touched(store - {k0}, k, Min(lo, k0), Max(hi, k0 + |store[k0]|)) && store[k] != [] ==>
              Touched(store, k, lo, hi)
  {
  }

  lemma {:induction false} BoundsStep(store: Store, k0: nat, lo: nat, hi: nat, lo1: nat, hi1: nat, l: nat, h: nat)
    requires Disjoint(store) && lo < hi && Touched(store, k0, lo, hi)
    requires lo1 == Min(lo, k0) && hi1 == Max(hi, k0 + |store[k0]|)
    ensures Bounds(store - {k0}, lo1, hi1, l, h) <==> Bounds(store, lo, hi, l, h)
  {
    SameTouched(store, k0, lo, hi);
    if Bounds(store - {k0}, lo1, hi1, l, h) {
      forall k: nat | Touched(store, k, lo, hi)
        ensures l <= k && k + |store[k]| <= h
      {
        assert k != k0 ==> Touched(store - {k0}, k, lo1, hi1);
      }
    }
    if Bounds(store, lo, hi, l, h) {
      forall k: nat | Touched(store - {k0}, k, lo1, hi1)
        ensures l <= k && k + |store[k]| <= h
      {
        assert store[k] != [] ==> Touched(store, k, lo, hi);
      }
    }
  }

  lemma {:induction false} HullStep(store: Store, k0: nat, lo: nat, hi: nat, lo1: nat, hi1: nat, l: nat, h: nat)
    requires Disjoint(store) && lo < hi && Touched(store, k0, lo, hi)
    requires lo1 == Min(lo, k0) && hi1 == Max(hi, k0 + |store[k0]|)
    requires Hull(store - {k0}, lo1, hi1, l, h)
    ensures Hull(store, lo, hi, l, h)
  {
    BoundsStep(store, k0, lo, hi, lo1, hi1, l, h);
    forall l': nat, h': nat | Bounds(store, lo, hi, l', h')
      ensures l' <= l && h <= h'
    {
      BoundsStep(store, k0, lo, hi, lo1, hi1, l', h');
    }
  }

  lemma {:induction false} NoGapStep(store: Store, k0: nat, lo: nat, hi: nat, lo1: nat, hi1: nat, l: nat, h: nat)
    requires lo < hi && Touched(store, k0, lo, hi)
    requires lo1 == Min(lo, k0) && hi1 == Max(hi, k0 + |store[k0]|)
    requires NoGap(store - {k0}, lo1, hi1, l, h)
    ensures NoGap(store, lo, hi, l, h)
  {
    forall p: nat | l <= p < h
      ensures lo <= p < hi || InStore(store, p)
    {
      if InStore(store - {k0}, p) {
        var k :| k in store - {k0} && k <= p < k + |(store - {k0})[k]|;
        assert k in store && k <= p < k + |store[k]|;
      } else if !(lo <= p < hi) {
        assert k0 in store && k0 <= p < k0 + |store[k0]|;
      }
    }
  }

  lemma {:induction false} UntouchedStep(store: Store, k0: nat, lo: nat, hi: nat, lo1: nat, hi1: nat, rest: Store)
    requires Disjoint(store) && lo < hi && Touched(store, k0, lo, hi)
    requires lo1 == Min(lo, k0) && hi1 == Max(hi, k0 + |store[k0]|)
    requires Untouched(store - {k0}, lo1, hi1, rest)
    ensures Untouched(store, lo, hi, rest)
  {
    SameTouched(store, k0, lo, hi);
    forall k | k in store && store[k] != []
      ensures k in rest <==> !Overlaps(k, store[k], lo, hi)
    {
      if k != k0 {
        assert k in store - {k0};
        assert Touched(store - {k0}, k, lo1, hi1) <==> Touched(store, k, lo, hi);
      }
    }
  }

  lemma {:induction false} StillListed(store: Store, order: seq<nat>, d: Bytes, i: nat, d1: Bytes, i1: nat)
    requires d != [] && Disjoint(store)
    requires forall k: nat :: Touched(store, k, i, i + |d|) && store[k] != [] ==> k in order
    requires order != [] && Touched(store, order[0], i, i + |d|)
    requires d1 == Merge(d, i, store[order[0]], order[0]) && i1 == Min(i, order[0])
    ensures d1 != [] && i1 + |d1| == Max(i + |d|, order[0] + |store[order[0]]|)
    ensures forall k: nat :: Touched(store - {order[0]}, k, i1, i1 + |d1|) && store[k] != [] ==> k in order[1..]
  {
    SameTouched(store, order[0], i, i + |d|);
  }

  lemma {:induction false} MergeAllSpans(store: Store, order: seq<nat>, d: Bytes, i: nat, e: nat, m: Merged)
    requires d != [] && Disjoint(store) && e == i + |d| && m == MergeAll(store, order, d, i)
    requires forall k: nat :: Touched(store, k, i, e) && store[k] != [] ==> k in order
    ensures Hull(store, i, e, m.index, m.End())
    decreases order
  {
    if order == [] {
      assert Bounds(store, i, e, i, e);
    } else if Touched(store, order[0], i, e) {
      var k0: nat := order[0];
      var d1, i1 := Merge(d, i, store[k0], k0), Min(i, k0);
      StillListed(store, order, d, i, d1, i1);
      MergeAllSpans(store - {k0}, order[1..], d1, i1, i1 + |d1|, m);
      HullStep(store, k0, i, e, i1, i1 + |d1|, m.index, m.End());
    } else {
      MergeAllSpans(store, order[1..], d, i, e, m);
    }
  }

  /** One merge pass, in any key order, yields a string over the hull of what it touches. */
  lemma {:induction false} MergeAllHull(store: Store, order: seq<nat>, d: Bytes, i: nat)
    requires d != [] && Disjoint(store)
    requires forall k: nat :: Touched(store, k, i, i + |d|) && store[k] != [] ==> k in order
    ensures Hull(store, i, i + |d|, MergeAll(store, order, d, i).index, MergeAll(store, order, d, i).End())
  {
    MergeAllSpans(store, order, d, i, i + |d|, MergeAll(store, order, d, i));
  }

  /** One merge pass fills no gap: every position it yields was pushed or stored. */
  lemma {:induction false} MergeAllNoGap(store: Store, order: seq<nat>, d: Bytes, i: nat)
    requires d != []
    ensures NoGap(store, i, i + |d|, MergeAll(store, order, d, i).index, MergeAll(store, order, d, i).End())
    decreases order
  {
    if order == [] {
    } else if order[0] in store && Overlaps(order[0], store[order[0]], i, i + |d|) {
      var k0: nat := order[0];
      var d1, i1 := Merge(d, i, store[k0], k0), Min(i, k0);
      MergeAllNoGap(store - {k0}, order[1..], d1, i1);
      var m := MergeAll(store - {k0}, order[1..], d1, i1);
      NoGapStep(store, k0, i, i + |d|, i1, i1 + |d1|, m.index, m.End());
    } else {
      MergeAllNoGap(store, order[1..], d, i);
    }
  }

  /** One merge pass, in any key order, removes exactly the non-empty strings the push touches. */
  lemma {:induction false} MergeAllUntouched(store: Store, order: seq<nat>, d: Bytes, i: nat)
    requires d != [] && Disjoint(store)
    requires forall k: nat :: Touched(store, k, i, i + |d|) && store[k] != [] ==> k in order
    ensures Untouched(store, i, i + |d|, MergeAll(store, order, d, i).rest)
    decreases order
  {
    if order == [] {
    } else if order[0] in store && Overlaps(order[0], store[order[0]], i, i + |d|) {
      var k0: nat := order[0];
      var d1, i1 := Merge(d, i, store[k0], k0), Min(i, k0);
      SameTouched(store, k0, i, i + |d|);
      MergeAllUntouched(store - {k0}, order[1..], d1, i1);
      UntouchedStep(store, k0, i, i + |d|, i1, i1 + |d1|, MergeAll(store - {k0}, order[1..], d1, i1).rest);
    } else {
      MergeAllUntouched(store, order[1..], d, i);
    }
  }

  /** One merge pass of strings cut from one source yields a string cut from that source. */
  lemma {:induction false} MergeAllSlice(store: Store, order: seq<nat>, d: Bytes, i: nat, source: Bytes)
    requires d != [] && IsSlice(source, d, i) && Consistent(store, source)
    ensures var m := MergeAll(store, order, d, i); IsSlice(source, m.data, m.index)
    decreases order
  {
    if order == [] {
    } else if order[0] in store && Overlaps(order[0], store[order[0]], i, i + |d|) {
      MergeSlice(source, d, i, store[order[0]], order[0]);
      MergeAllSlice(store - {order[0]}, order[1..], Merge(d, i, store[order[0]], order[0]), Min(i, order[0]), source);
    } else {
      MergeAllSlice(store, order[1..], d, i, source);
    }
  }

  // ---------------------------------------------------------------- counting

  /** The sum of the stored lengths does not depend on the order of summing. */
  lemma {:induction false} TotalRemove(store: Store, k: nat)
    requires k in store
    ensures Total(store) == |store[k]| + Total(store - {k})
    decreases |store|
  {
    var j :| j in store && Total(store) == |store[j]| + Total(store - {j});
    if j != k {
      TotalRemove(store - {j}, k);
      TotalRemove(store - {k}, j);
      assert store - {j} - {k} == store - {k} - {j};
    }
  }

  ghost function Range(lo: nat, hi: nat): (r: set<nat>)
    requires lo <= hi
    ensures |r| == hi - lo
    ensures forall p :: p in r <==> lo <= p < hi
    decreases hi - lo
  {
    if lo == hi then {} else Range(lo, hi - 1) + {hi - 1}
  }

  /** The stored positions, each counted once. */
  ghost function Positions(store: Store): (r: set<nat>)
    ensures forall p :: p in r <==> p >= 0 && InStore(store, p)
    decreases |store|
  {
    if store == map[] then {}
    else
      var k: nat :| k in store;
      InStoreRemove(store, k);
      Range(k, k + |store[k]|) + Positions(store - {k})
  }

  lemma {:induction false} InStoreRemove(store: Store, k: nat)
    requires k in store
    ensures forall p: nat :: InStore(store, p) <==> InStore(store - {k}, p) || k <= p < k + |store[k]|
  {
    forall p: nat
      ensures InStore(store, p) <==> InStore(store - {k}, p) || k <= p < k + |store[k]|
    {
      if InStore(store, p) {
        var j: nat :| j in store && j <= p < j + |store[j]|;
        assert j != k ==> j in store - {k} && j <= p < j + |(store - {k})[j]|;
      }
      if InStore(store - {k}, p) {
        var j: nat :| j in store - {k} && j <= p < j + |(store - {k})[j]|;
        assert j in store && j <= p < j + |store[j]|;
      }
    }
  }

  /** Without overlap, the positions of one stored string and those of the others are told apart. */
  lemma {:induction false} PositionsRemove(store: Store, k: nat, all: set<nat>, others: set<nat>, own: set<nat>)
    requires k in store && Disjoint(store)
    requires forall p: nat :: p in all <==> InStore(store, p)
    requires forall p: nat :: p in others <==> InStore(store - {k}, p)
    requires forall p: nat :: p in own <==> k <= p < k + |store[k]|
    ensures all == others + own && others !! own
  {
    InStoreRemove(store, k);
    assert all == others + own;
    forall p: nat | p in others
      ensures p !in own
    {
      var j: nat :| j in store - {k} && j <= p < j + |(store - {k})[j]|;
      assert j in store && store[j] == (store - {k})[j];
    }
  }

  /** Disjointness makes the de-duplicating count the plain sum of the stored lengths. */
  lemma {:induction false} PositionsAreTotal(store: Store)
    requires Disjoint(store)
    ensures |Positions(store)| == Total(store)
    decreases |store|
  {
    if store == map[] {
      assert Positions(store) == {};
    } else {
      var k: nat :| k in store && Total(store) == |store[k]| + Total(store - {k});
      PositionsRemove(store, k, Positions(store), Positions(store - {k}), Range(k, k + |store[k]|));
      PositionsAreTotal(store - {k});
    }
  }

  // ---------------------------------------------------------------- flushing

  /** Before a flush only strings that are wholly written, or start at `w`, may begin at or below `w`. */
  ghost predicate Ready(store: Store, w: nat) {
    forall k :: k in store && k < w ==> k + |store[k]| <= w
  }

  lemma {:induction false} ReadyStep(store: Store, w: nat)
    requires Disjoint(store) && Ready(store, w) && w in store
    ensures Disjoint(store - {w}) && Ready(store - {w}, w + |store[w]|)
  {
  }

  lemma {:induction false} GatherSlice(store: Store, w: nat, source: Bytes)
    requires Consistent(store, source) && w <= |source|
    ensures IsSlice(source, Gather(store, w), w)
    decreases |store|
  {
    if w in store && store[w] != [] {
      GatherSlice(store - {w}, w + |store[w]|, source);
    }
  }

  /** No stored string sticks out past `e`, and none starts right there. */
  ghost predicate Swallowed(store: Store, e: nat) {
    Ready(store, e) && (e in store ==> store[e] == [])
  }

  lemma {:induction false} SwallowedStep(store: Store, w: nat, e: nat)
    requires w in store && w < e && w + |store[w]| <= e && Swallowed(store - {w}, e)
    ensures Swallowed(store, e)
  {
    assert e in store ==> e in store - {w};
    forall k | k in store && k < e
      ensures k + |store[k]| <= e
    {
      assert k != w ==> k in store - {w};
    }
  }

  lemma {:induction false} ReachIsGathered(store: Store, w: nat)
    ensures Reach(store, w) == w + |Gather(store, w)|
    decreases |store|
  {
    if w in store && store[w] != [] {
      ReachIsGathered(store - {w}, w + |store[w]|);
    }
  }

  lemma {:induction false} ReachSwallows(store: Store, w: nat)
    requires Disjoint(store) && Ready(store, w)
    ensures Swallowed(store, Reach(store, w))
    decreases |store|
  {
    if w in store && store[w] != [] {
      var rest, w1 := store - {w}, w + |store[w]|;
      ReadyStep(store, w);
      ReachSwallows(rest, w1);
      ReachIsGathered(rest, w1);
      SwallowedStep(store, w, Reach(rest, w1));
      assert Reach(store, w) == Reach(rest, w1);
    } else {
      assert Reach(store, w) == w;
    }
  }

  lemma {:induction false} GatherTotal(store: Store, w: nat)
    ensures |Gather(store, w)| <= Total(store)
    decreases |store|
  {
    if w in store && store[w] != [] {
      var rest, w1 := store - {w}, w + |store[w]|;
      GatherTotal(rest, w1);
      assert |Gather(store, w)| == |store[w]| + |Gather(rest, w1)|;
      TotalRemove(store, w);
    }
  }

  lemma {:induction false} GatherNoGap(store: Store, w: nat, p: nat)
    requires w <= p < w + |Gather(store, w)|
    ensures InStore(store, p)
    decreases |store|
  {
    if w <= p < w + |store[w]| {
    } else {
      GatherNoGap(store - {w}, w + |store[w]|, p);
      var k :| k in store - {w} && k <= p < k + |(store - {w})[k]|;
      assert k in store && k <= p < k + |store[k]|;
    }
  }

  // ---------------------------------------------------------------- a whole push

  /** `Inv` but for the end-of-input flag, which only `Finish` brings up to date. */
  ghost predicate Core(r: Reassembler, source: Bytes) {
    && r.out.Valid()
    && r.willing == r.bytesWrited == |r.out.written|
    && r.out.written <= source
    && Disjoint(r.store)
    && Consistent(r.store, source)
    && (r.eofSeen ==> r.total == |source|)
    && (r.out.ended ==> r.eofSeen && r.bytesWrited == r.total)
  }

  lemma {:induction false} FreshRange(r: Reassembler, data: Bytes, index: nat)
    requires data != []
    ensures var (d, i) := Fresh(r, data, index);
            d != [] && i + |d| == index + |data| && (i < r.willing ==> i + |d| <= r.willing)
  {
  }

  lemma {:induction false} FreshSlice(r: Reassembler, data: Bytes, index: nat, source: Bytes)
    requires data != [] && IsSlice(source, data, index)
    ensures var (d, i) := Fresh(r, data, index); d != [] && IsSlice(source, d, i)
  {
  }

  lemma {:induction false} HullAtOrPast(store: Store, lo: nat, hi: nat, l: nat, h: nat, w: nat)
    requires lo < hi && Past(store, w) && Hull(store, lo, hi, l, h)
    requires lo < w ==> hi <= w
    ensures l < w ==> l == lo && h == hi
  {
    if lo < w {
      assert Bounds(store, lo, hi, lo, hi);
    } else {
      forall k: nat | Touched(store, k, lo, hi)
        ensures w <= k
      {
      }
      assert Bounds(store, lo, hi, w, h);
    }
  }

  /** An untouched string lies wholly outside the hull. */
  lemma {:induction false} HullAvoids(store: Store, lo: nat, hi: nat, l: nat, h: nat, k: nat)
    requires Disjoint(store) && lo < hi && Hull(store, lo, hi, l, h)
    requires k in store && store[k] != [] && !Overlaps(k, store[k], lo, hi)
    ensures k + |store[k]| <= l || h <= k
  {
    if hi <= k {
      assert Bounds(store, lo, hi, l, k);
    } else {
      assert Bounds(store, lo, hi, k + |store[k]|, h);
    }
  }

  lemma {:induction false} InsertDisjoint(store: Store, lo: nat, hi: nat, m: Merged)
    requires Disjoint(store) && lo < hi
    requires Hull(store, lo, hi, m.index, m.End()) && Untouched(store, lo, hi, m.rest)
    ensures Disjoint(m.rest[m.index := m.data])
  {
    forall k | k in m.rest && m.rest[k] != []
      ensures k + |m.rest[k]| <= m.index || m.End() <= k
    {
      HullAvoids(store, lo, hi, m.index, m.End(), k);
    }
  }

  /** Merging a push into the store keeps the stored strings disjoint, whatever the bytes and the key order. */
  lemma {:induction false} AbsorbDisjoint(r: Reassembler, data: Bytes, index: nat, order: seq<nat>)
    requires Past(r.store, r.willing) && Disjoint(r.store) && data != []
    requires forall k :: k in r.store ==> k in order
    ensures Disjoint(Absorb(r, data, index, order)) && Ready(Absorb(r, data, index, order), r.willing)
  {
    var (d, i) := Fresh(r, data, index);
    FreshRange(r, data, index);
    var m := MergeAll(r.store, order, d, i);
    MergeAllHull(r.store, order, d, i);
    MergeAllUntouched(r.store, order, d, i);
    InsertDisjoint(r.store, i, i + |d|, m);
    HullAtOrPast(r.store, i, i + |d|, m.index, m.End(), r.willing);
  }

  lemma {:induction false} AbsorbConsistent(r: Reassembler, data: Bytes, index: nat, order: seq<nat>, source: Bytes)
    requires Disjoint(r.store) && Consistent(r.store, source)
    requires data != [] && IsSlice(source, data, index)
    requires forall k :: k in r.store ==> k in order
    ensures Consistent(Absorb(r, data, index, order), source)
  {
    var (d, i) := Fresh(r, data, index);
    FreshSlice(r, data, index, source);
    MergeAllSlice(r.store, order, d, i, source);
    MergeAllUntouched(r.store, order, d, i);
  }

  lemma {:induction false} TrimDisjoint(store: Store, victim: nat, excess: nat, w: nat)
    requires Disjoint(store) && Ready(store, w) && w < victim
    ensures Disjoint(Trim(store, victim, excess)) && Ready(Trim(store, victim, excess), w)
  {
    assert victim in store ==> |Trim(store, victim, excess)[victim]| <= |store[victim]|;
  }

  lemma {:induction false} TrimConsistent(store: Store, victim: nat, excess: nat, source: Bytes)
    requires Consistent(store, source) && victim <= |source|
    ensures Consistent(Trim(store, victim, excess), source)
  {
    assert victim in store ==> Trim(store, victim, excess)[victim] <= store[victim];
    assert victim !in store ==> Trim(store, victim, excess)[victim] == [];
  }

  lemma {:induction false} FlushInv(r: Reassembler, source: Bytes)
    requires Core(r, source) && Ready(r.store, r.willing)
    ensures Core(Flush(r), source) && Past(Flush(r).store, Flush(r).willing)
  {
    GatherSlice(r.store, r.willing, source);
  }

  /** The store just before the flush, trimmed or not, is disjoint. */
  lemma {:induction false} MakeRoomDisjoint(r: Reassembler, data: Bytes, index: nat, o: Oracle)
    requires r.out.Valid() && Past(r.store, r.willing) && Disjoint(r.store) && Fits(o, r.store) && data != []
    ensures Disjoint(MakeRoom(r, Absorb(r, data, index, o.order), o))
    ensures Ready(MakeRoom(r, Absorb(r, data, index, o.order), o), r.willing)
  {
    AbsorbDisjoint(r, data, index, o.order);
    var store := Absorb(r, data, index, o.order);
    if Overflows(r, store) && o.order != [] {
      TrimDisjoint(store, o.victim, r.out.Buffered() + Total(store) - r.out.capacity, r.willing);
    }
  }

  lemma {:induction false} MakeRoomConsistent(r: Reassembler, data: Bytes, index: nat, o: Oracle, source: Bytes)
    requires r.out.Valid() && Disjoint(r.store) && Consistent(r.store, source) && Fits(o, r.store)
    requires data != [] && IsSlice(source, data, index)
    ensures Consistent(MakeRoom(r, Absorb(r, data, index, o.order), o), source)
  {
    AbsorbConsistent(r, data, index, o.order, source);
    var store := Absorb(r, data, index, o.order);
    if Overflows(r, store) && o.order != [] {
      assert o.victim in r.store;
      TrimConsistent(store, o.victim, r.out.Buffered() + Total(store) - r.out.capacity, source);
    }
  }

  /** Every push that tells the truth about the source keeps the invariant, whatever the map's order. */
  lemma {:induction false} PushInv(r: Reassembler, data: Bytes, index: nat, eof: bool, o: Oracle, source: Bytes)
    requires Inv(r, source) && Honest(source, data, index, eof) && Fits(o, r.store)
    ensures Inv(Push(r, data, index, eof, o), source)
    ensures r.out.written <= Push(r, data, index, eof, o).out.written
  {
    var r0 := NoteEof(r, data, index, eof);
    if data != [] {
      MakeRoomDisjoint(r0, data, index, o);
      MakeRoomConsistent(r0, data, index, o, source);
      FlushInv(r0.(store := MakeRoom(r0, Absorb(r0, data, index, o.order), o)), source);
    }
  }
}
