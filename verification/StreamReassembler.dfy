/** The reassembler as the source runs it, step by step, against its specification in `Reassembly`. */
module StreamReassemblers {
  import opened Prelude
  import opened ByteStreams
  import opened Reassembly

  /** Copies both strings into one zeroed buffer. */
  method MergeSubstrings(str1: Bytes, index1: nat, str2: Bytes, index2: nat) returns (result: Bytes)
    ensures result == Merge(str1, index1, str2, index2)
  {
    var start := Min(index1, index2);
    var end := Max(index1 + |str1|, index2 + |str2|);
    var buffer: array<Byte> := new Byte[end - start](_ => 0);
    for j := 0 to |str1|
      invariant forall x :: 0 <= x < buffer.Length ==>
                  buffer[x] == if index1 <= start + x < index1 + j then str1[start + x - index1] else 0
    {
      buffer[index1 - start + j] := str1[j];
    }
    ghost var half := buffer[..];
    for j := 0 to |str2|
      invariant forall x :: 0 <= x < buffer.Length ==>
                  buffer[x] == if index2 <= start + x < index2 + j then str2[start + x - index2] else half[x]
    {
      buffer[index2 - start + j] := str2[j];
    }
    result := buffer[..];
  }

  /** Marks the positions `key..key + n`, counting each that was not marked yet. */
  method MarkRange(marked: set<nat>, key: nat, n: nat) returns (pos: set<nat>, size: nat)
    ensures forall p :: p in pos <==> p in marked || key <= p < key + n
    ensures size == |pos|
  {
    pos, size := marked, |marked|;
    for index := 0 to n
      invariant forall p :: p in pos <==> p in marked || key <= p < key + index
      invariant size == |pos|
    {
      if index + key !in pos {
        size := size + 1;
        pos := pos + {index + key};
      }
    }
  }

  /** One visit of the flush loop to a key that is not past `willing`. */
  ghost function FlushKey(r: Reassembler, k: nat): Reassembler
    requires r.out.Valid() && k in r.store && k <= r.willing
  {
    var s := r.store[k];
    if k + |s| - 1 < r.willing then r.(store := r.store - {k})
    else
      var n := r.out.Accepts(|s| - (r.willing - k));
      r.(store := r.store - {k}, out := r.out.Write(s[r.willing - k..]), willing := r.willing + n,
         bytesWrited := r.bytesWrited + n)
  }

  ghost predicate FlushReady(r: Reassembler) {
    r.out.Valid() && Disjoint(r.store) && Ready(r.store, r.willing)
  }

  lemma {:induction false} GatherWithout(store: Store, k: nat, w: nat)
    requires k < w
    ensures Gather(store - {k}, w) == Gather(store, w)
    decreases |store|
  {
    if w in store && store[w] != [] {
      GatherWithout(store - {w}, k, w + |store[w]|);
      assert store - {w} - {k} == store - {k} - {w};
    }
  }

  lemma {:induction false} KeysPastWithout(store: Store, k: nat, w: nat)
    requires k <= w
    ensures KeysPast(store - {k}, w) == KeysPast(store, w)
  {
  }

  /** Visiting a stale key only drops it. */
  lemma {:induction false} FlushStaleKey(r: Reassembler, k: nat)
    requires FlushReady(r) && k in r.store && k <= r.willing && k + |r.store[k]| <= r.willing
    ensures Flush(r.(store := r.store - {k})) == Flush(r)
  {
    if k < r.willing {
      GatherWithout(r.store, k, r.willing);
    }
    KeysPastWithout(r.store, k, r.willing + r.out.Accepts(|Gather(r.store, r.willing)|));
  }

  /** Visiting the key at `willing` writes its part of the flush: all of it ... */
  lemma {:induction false} FlushNextWhole(r: Reassembler, w: nat, s: Bytes)
    requires FlushReady(r) && w == r.willing && w in r.store && r.store[w] == s && s != []
    requires r.out.Accepts(|s|) == |s|
    ensures Flush(r.(store := r.store - {w}, out := r.out.Write(s), willing := w + |s|,
                     bytesWrited := r.bytesWrited + |s|)) == Flush(r)
  {
    var g := Gather(r.store - {w}, w + |s|);
    WriteTwice(r.out, s, g);
    assert Gather(r.store, w) == s + g;
    var n := r.out.Write(s).Accepts(|g|);
    assert r.out.Accepts(|s + g|) == |s| + n;
    KeysPastWithout(r.store, w, w + |s| + n);
    assert KeysPast(r.store, w + (|s| + n)) == KeysPast(r.store - {w}, w + |s| + n);
  }

  /** ... or what still fits. */
  lemma {:induction false} FlushNextShort(r: Reassembler, w: nat, s: Bytes, n: nat)
    requires FlushReady(r) && w == r.willing && w in r.store && r.store[w] == s
    requires r.out.Accepts(|s|) == n < |s|
    ensures Flush(r.(store := r.store - {w}, out := r.out.Write(s), willing := w + n,
                     bytesWrited := r.bytesWrited + n)) == Flush(r)
  {
    var g := Gather(r.store - {w}, w + |s|);
    WriteTwice(r.out, s, g);
    assert Gather(r.store, w) == s + g;
    WriteTwice(r.out, s, Gather(r.store - {w}, w + n));
    KeysPastWithout(r.store, w, w + n);
  }

  lemma {:induction false} FlushKeyAtWilling(r: Reassembler, k: nat, s: Bytes, n: nat)
    requires r.out.Valid() && k in r.store && k == r.willing && r.store[k] == s && |s| > 0
    requires r.out.Accepts(|s|) == n
    ensures FlushKey(r, k) == r.(store := r.store - {k}, out := r.out.Write(s), willing := k + n,
                                 bytesWrited := r.bytesWrited + n)
  {
    assert s[r.willing - k..] == s;
  }

  lemma {:induction false} FlushKeyKeepsAtWilling(r: Reassembler, k: nat, s: Bytes)
    requires FlushReady(r) && k in r.store && k == r.willing && r.store[k] == s && |s| > 0
    ensures Flush(FlushKey(r, k)) == Flush(r)
  {
    var n := r.out.Accepts(|s|);
    FlushKeyAtWilling(r, k, s, n);
    if n == |s| {
      FlushNextWhole(r, k, s);
    } else {
      FlushNextShort(r, k, s, n);
    }
  }

  /** Visiting a key changes neither what the flush will have written nor what it will have kept. */
  lemma {:induction false} FlushKeyKeeps(r: Reassembler, k: nat)
    requires FlushReady(r) && k in r.store && k <= r.willing
    ensures Flush(FlushKey(r, k)) == Flush(r)
  {
    if k + |r.store[k]| <= r.willing {
      FlushStaleKey(r, k);
      assert FlushKey(r, k) == r.(store := r.store - {k});
    } else {
      FlushKeyKeepsAtWilling(r, k, r.store[k]);
    }
  }

  lemma {:induction false} FlushKeyReady(r: Reassembler, k: nat)
    requires FlushReady(r) && k in r.store && k <= r.willing
    ensures FlushReady(FlushKey(r, k))
  {
    if k + |r.store[k]| > r.willing {
      ReadyStep(r.store, k);
    }
  }

  lemma {:induction false} FlushDone(r: Reassembler)
    requires r.out.Valid() && Past(r.store, r.willing)
    ensures Flush(r) == r
  {
    assert r.out.written + [] == r.out.written;
    assert KeysPast(r.store, r.willing) == r.store;
  }

  /** The shape every run of pushes keeps, true or not to one source. */
  ghost predicate WellFormed(r: Reassembler) {
    r.out.Valid() && Disjoint(r.store) && Past(r.store, r.willing)
  }

  lemma {:induction false} PushWellFormed(r: Reassembler, data: Bytes, index: nat, eof: bool, o: Oracle)
    requires WellFormed(r) && Fits(o, r.store)
    ensures WellFormed(Push(r, data, index, eof, o))
  {
    if data != [] {
      MakeRoomDisjoint(NoteEof(r, data, index, eof), data, index, o);
    }
  }

  class StreamReassembler {
    const output: ByteStream
    const capacity: nat
    var willing: nat
    var reassembler: Store
    var endFlag: bool
    var totalWrite: nat
    var bytesWrited: nat

    ghost function View(): Reassembler
      reads this, output
    {
      Reassembler(output.View(), willing, reassembler, endFlag, totalWrite, bytesWrited)
    }

    ghost predicate Valid()
      reads this, output, output.stream
    {
      output.Valid() && output.capacity == capacity && WellFormed(View())
    }

    constructor (capacity: nat)
      ensures Valid() && fresh(output) && fresh(output.stream)
      ensures View() == NewReassembler(capacity)
    {
      output := new ByteStream(capacity);
      this.capacity := capacity;
      willing, reassembler, endFlag, totalWrite, bytesWrited := 0, map[], false, 0, 0;
    }

    /** The keys of the map, in whatever order it yields them. */
    method CollectKeys() returns (keys: seq<nat>)
      ensures forall k :: k in reassembler <==> k in keys
    {
      keys := [];
      var pending := reassembler.Keys;
      while pending != {}
        invariant forall k :: k in reassembler <==> k in pending || k in keys
        decreases pending
      {
        var k :| k in pending;
        keys := keys + [k];
        pending := pending - {k};
      }
    }

    /** Absorbs every stored string that the new one overlaps, in the given key order. */
    method MergeStored(data: Bytes, index: nat, keys: seq<nat>)
      modifies this`reassembler
      ensures var m := MergeAll(old(reassembler), keys, data, index); reassembler == m.rest[m.index := m.data]
    {
      var d: Bytes, i: nat := data, index;
      var n := 0;
      assert keys[0..] == keys;
      while n < |keys|
        invariant 0 <= n <= |keys|
        invariant MergeAll(old(reassembler), keys, data, index) == MergeAll(reassembler, keys[n..], d, i)
      {
        var key := keys[n];
        assert keys[n..][0] == key && keys[n..][1..] == keys[n + 1..];
        if key in reassembler && Overlaps(key, reassembler[key], i, i + |d|) {
          d := MergeSubstrings(d, i, reassembler[key], key);
          i := Min(i, key);
          reassembler := reassembler - {key};
        }
        n := n + 1;
      }
      reassembler := reassembler[i := d];
    }

    method StoredTotal() returns (total: nat)
      ensures total == Total(reassembler)
    {
      total := 0;
      var left: Store := reassembler;
      while left != map[]
        invariant total + Total(left) == Total(reassembler)
        decreases |left|
      {
        var k :| k in left;
        TotalRemove(left, k);
        total := total + |left[k]|;
        left := left - {k};
      }
    }

    /** The overflow branch: trims the first key of the sorted old keys and stops. */
    method TrimFirst(keys: seq<nat>) returns (victim: nat)
      requires Valid'()
      modifies this`reassembler
      ensures keys != [] ==> victim in keys
      ensures reassembler == MakeRoom(old(View()), old(reassembler), Oracle(keys, victim))
    {
      victim := 0;
      var total := StoredTotal();
      if output.size + total > capacity {
        var remain := output.size + total - capacity;
        if keys != [] {
          assert keys[0] in keys;
          victim :| victim in keys;
          var s := if victim in reassembler then reassembler[victim] else [];
          if |s| <= remain {
            remain := remain - |s|;
            s := [];
          } else {
            s := s[..|s| - remain];
          }
          reassembler := reassembler[victim := s];
        }
      } else if keys != [] {
        victim := keys[0];
      }
    }

    ghost predicate Valid'()
      reads this, output, output.stream
    {
      output.Valid() && output.capacity == capacity
    }

    method WriteOrDrop(key: nat)
      requires Valid'() && key in reassembler && key <= willing
      modifies this`reassembler, this`willing, this`bytesWrited, output, output.stream
      ensures Valid'() && View() == FlushKey(old(View()), key)
    {
      var s := reassembler[key];
      reassembler := reassembler - {key};
      if key + |s| - 1 >= willing {
        var n := output.Write(s[willing - key..]);
        willing := willing + n;
        bytesWrited := bytesWrited + n;
      }
    }

    method FlushVisit(key: nat)
      requires Valid'() && FlushReady(View()) && key in reassembler && key <= willing
      modifies this`reassembler, this`willing, this`bytesWrited, output, output.stream
      ensures Valid'() && FlushReady(View()) && Flush(View()) == old(Flush(View()))
      ensures reassembler == old(reassembler) - {key} && willing >= old(willing)
    {
      FlushKeyKeeps(View(), key);
      FlushKeyReady(View(), key);
      WriteOrDrop(key);
      assert reassembler == View().store && willing == View().willing;
    }

    /** One pass over the map: writes or drops every string that does not start past `willing`. */
    method FlushPass()
      requires Valid'() && FlushReady(View())
      modifies this`reassembler, this`willing, this`bytesWrited, output, output.stream
      ensures Valid'() && FlushReady(View())
      ensures Flush(View()) == old(Flush(View()))
      ensures old(willing) != willing ==> |reassembler| < old(|reassembler|)
      ensures old(willing) == willing ==> Past(reassembler, willing)
    {
      var pending := reassembler.Keys;
      while pending != {}
        invariant Valid'() && FlushReady(View())
        invariant Flush(View()) == old(Flush(View()))
        invariant pending <= reassembler.Keys
        invariant old(willing) <= willing
        invariant |reassembler| <= old(|reassembler|)
        invariant old(willing) != willing ==> |reassembler| < old(|reassembler|)
        invariant forall k :: k in reassembler && k !in pending ==> k > old(willing)
        decreases pending
      {
        var key :| key in pending;
        pending := pending - {key};
        if key <= willing {
          FlushVisit(key);
        }
      }
    }

    method FlushLoop()
      requires Valid'() && FlushReady(View())
      modifies this`reassembler, this`willing, this`bytesWrited, output, output.stream
      ensures Valid'() && View() == old(Flush(View()))
    {
      while true
        invariant Valid'() && FlushReady(View())
        invariant Flush(View()) == old(Flush(View()))
        decreases |reassembler|
      {
        var tempWill := willing;
        FlushPass();
        if tempWill == willing {
          break;
        }
      }
      FlushDone(View());
    }

    /** The body of a push of a non-empty string, up to the end-of-input test. */
    method Assemble(data: Bytes, index: nat, keys: seq<nat>) returns (victim: nat)
      requires Valid() && data != [] && forall k :: k in reassembler <==> k in keys
      modifies this`reassembler, this`willing, this`bytesWrited, output, output.stream
      ensures Valid'() && Fits(Oracle(keys, victim), old(reassembler))
      ensures var r, o := old(View()), Oracle(keys, victim);
              View() == Flush(r.(store := MakeRoom(r, Absorb(r, data, index, keys), o)))
    {
      ghost var r := View();
      var copyData: Bytes, copyIndex: nat := data, index;
      if copyIndex < willing && copyIndex + |copyData| - 1 >= willing {
        copyData := copyData[willing - index..];
        copyIndex := willing;
      }
      MergeStored(copyData, copyIndex, keys);
      assert View() == r.(store := Absorb(r, data, index, keys));
      victim := TrimFirst(keys);
      assert View() == r.(store := MakeRoom(r, Absorb(r, data, index, keys), Oracle(keys, victim)));
      MakeRoomDisjoint(r, data, index, Oracle(keys, victim));
      FlushLoop();
    }

    /** Returns, for the specification, the map order it met and the key it trimmed. */
    method PushSubstring(data: Bytes, index: nat, eof: bool) returns (ghost o: Oracle)
      requires Valid() && index + |data| < 0x1_0000_0000_0000_0000
      modifies this, output, output.stream
      ensures Valid()
      ensures Fits(o, old(reassembler))
      ensures View() == Push(old(View()), data, index, eof, o)
    {
      var keys := CollectKeys();
      var victim := if keys == [] then 0 else keys[0];
      if eof {
        endFlag := true;
        totalWrite := index + |data|;
      }
      assert View() == NoteEof(old(View()), data, index, eof);
      if data != [] {
        victim := Assemble(data, index, keys);
      }
      o := Oracle(keys, victim);
      PushWellFormed(old(View()), data, index, eof, o);
      if endFlag && bytesWrited == totalWrite {
        output.EndInput();
      }
    }

    /** Counts stored positions, each once; disjointness makes that the plain sum of the lengths. */
    method UnassembledBytes() returns (size: nat)
      requires Valid()
      ensures size == |Positions(reassembler)| == Total(reassembler)
    {
      size := 0;
      var pos: set<nat> := {};
      var left: Store := reassembler;
      while left != map[]
        invariant forall p: nat :: InStore(reassembler, p) <==> p in pos || InStore(left, p)
        invariant size == |pos|
        decreases |left|
      {
        var key: nat :| key in left;
        InStoreRemove(left, key);
        pos, size := MarkRange(pos, key, |left[key]|);
        left := left - {key};
      }
      assert pos == Positions(reassembler);
      PositionsAreTotal(reassembler);
    }
  }
}
