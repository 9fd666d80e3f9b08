/** Runs of a blob cache: what a client sees over any sequence of operations. */
module BlobRuns {
  import opened Common
  import opened BlobChain

  /** Each operation in its synchronous or its asynchronous form. */
  datatype Op =
    | DoInsert(key: Key, blob: Blob, async: bool)
    | DoFind(key: Key, async: bool)
    | DoContains(key: Key, async: bool)

  datatype Seen = Inserted | Found(answer: Answer) | Present(yes: bool)

  function Step(h: Hash, chain: Chain, op: Op): (r: (Seen, Chain)) {
    match op
    case DoInsert(k, b, async) => (Inserted, if async then InsertAsync(h, chain, k, b) else Insert(h, chain, k, b))
    case DoFind(k, async) =>
      var (answer, after) := if async then FindAsync(h, chain, k) else Find(h, chain, k);
      (Found(answer), after)
    case DoContains(k, async) => (Present(if async then ContainsAsync(chain, k) else Contains(chain, k)), chain)
  }

  function Observe(h: Hash, chain: Chain, ops: seq<Op>): (r: seq<Seen>)
    ensures |r| == |ops|
    decreases |ops|
  {
    if ops == [] then [] else [Step(h, chain, ops[0]).0] + Observe(h, Step(h, chain, ops[0]).1, ops[1..])
  }

  /** The same client talking to one plain map. */
  function MapStep(m: map<Key, Blob>, op: Op): (r: (Seen, map<Key, Blob>)) {
    match op
    case DoInsert(k, b, _) => (Inserted, m[k := b])
    case DoFind(k, _) => (Found(Ok(if k in m then Some(m[k]) else None)), m)
    case DoContains(k, _) => (Present(k in m), m)
  }

  function MapObserve(m: map<Key, Blob>, ops: seq<Op>): (r: seq<Seen>)
    ensures |r| == |ops|
    decreases |ops|
  {
    if ops == [] then [] else [MapStep(m, ops[0]).0] + MapObserve(MapStep(m, ops[0]).1, ops[1..])
  }

  ghost predicate Represents(h: Hash, chain: Chain, m: map<Key, Blob>) {
    forall k: Key :: Lookup(h, chain, k) == if k in m then Some(m[k]) else None
  }

  /** What one operation keeps, provided an insertion is one that reads back. */
  lemma StepRefines(h: Hash, chain: Chain, m: map<Key, Blob>, op: Op)
    requires Sound(h, chain) && Represents(h, chain, m)
    requires op.DoInsert? ==> ReadsBack(h, chain, op.key, op.blob)
    ensures var (seen, after), (seen', m') := Step(h, chain, op), MapStep(m, op);
            seen == seen' && Sound(h, after) && Represents(h, after, m')
  {
    match op
    case DoInsert(k, b, async) =>
      InsertAsyncIsSync(h, chain, k, b);
      InsertSound(h, chain, k, b);
      forall other: Key ensures Lookup(h, Insert(h, chain, k, b), other)
                             == if other in m[k := b] then Some(m[k := b][other]) else None {
        LookupAfterInsert(h, chain, k, b, other);
      }
    case DoFind(k, async) =>
      FindAsyncIsSync(h, chain, k);
      forall other: Key ensures Lookup(h, Find(h, chain, k).1, other) == Lookup(h, chain, other) {
        FindAnswers(h, chain, k, other);
      }
      FindAnswers(h, chain, k, k);
    case DoContains(k, async) =>
      ContainsAsyncIsSync(chain, k);
      ContainsIffLookup(h, chain, k);
  }

  // ----- a memory layer in front: last write wins -----

  predicate MemoryHeaded(chain: Chain) {
    chain != [] && chain[0].Memory?
  }

  lemma MemoryHeadStays(h: Hash, chain: Chain, op: Op)
    requires MemoryHeaded(chain)
    ensures MemoryHeaded(Step(h, chain, op).1)
  {
    match op
    case DoInsert(k, b, _) => InsertAsyncIsSync(h, chain, k, b);
    case DoFind(k, _) => FindAsyncIsSync(h, chain, k);
    case DoContains(_, _) =>
  }

  /**
   A chain headed by a memory layer, such as the default memory-then-files chain, cannot be told from
   a plain map: over every sequence of operations, synchronous and asynchronous mixed, every answer
   is the map's.
   */
  lemma {:induction false} MemoryHeadedIsAMap(h: Hash, chain: Chain, m: map<Key, Blob>, ops: seq<Op>)
    requires Sound(h, chain) && MemoryHeaded(chain) && Represents(h, chain, m)
    ensures Observe(h, chain, ops) == MapObserve(m, ops)
    decreases |ops|
  {
    if ops != [] {
      StepRefines(h, chain, m, ops[0]);
      MemoryHeadStays(h, chain, ops[0]);
      MemoryHeadedIsAMap(h, Step(h, chain, ops[0]).1, MapStep(m, ops[0]).1, ops[1..]);
    }
  }

  // ----- one blob per key: all layers agree -----

  type Contents = Key -> Blob

  ghost predicate LayerAgrees(h: Hash, layer: Layer, f: Contents) {
    forall k: Key :: Entry(h, layer, k).Some? ==> Entry(h, layer, k) == Some(f(k))
  }

  ghost predicate Agrees(h: Hash, chain: Chain, f: Contents) {
    forall i | 0 <= i < |chain| :: LayerAgrees(h, chain[i], f)
  }

  ghost predicate Consistent(ops: seq<Op>, f: Contents) {
    forall i | 0 <= i < |ops| :: ops[i].DoInsert? ==> ops[i].blob == f(ops[i].key)
  }

  lemma {:induction false} InsertAgrees(h: Hash, chain: Chain, k: Key, f: Contents)
    requires Sound(h, chain) && Agrees(h, chain, f)
    ensures Agrees(h, Insert(h, chain, k, f(k)), f)
  {
    if chain != [] {
      var r := Insert(h, chain, k, f(k));
      InsertAgrees(h, chain[1..], k, f);
      InsertLocalStores(h, chain, k, f(k));
      forall other: Key | Entry(h, r[0], other).Some? ensures Entry(h, r[0], other) == Some(f(other)) {
        StoredEntry(h, chain[0], k, f(k), other);
        assert LayerAgrees(h, chain[0], f);
      }
      forall i | 0 <= i < |r| ensures LayerAgrees(h, r[i], f) {
        if i > 0 {
          assert r[i] == Insert(h, chain[1..], k, f(k))[i - 1];
        }
      }
    }
  }

  lemma {:induction false} LookupAgrees(h: Hash, chain: Chain, k: Key, f: Contents)
    requires Sound(h, chain) && Agrees(h, chain, f)
    ensures Lookup(h, chain, k).Some? ==> Lookup(h, chain, k) == Some(f(k))
  {
    if chain != [] {
      assert LayerAgrees(h, chain[0], f);
      LookupAgrees(h, chain[1..], k, f);
    }
  }

  lemma {:induction false} FindAgrees(h: Hash, chain: Chain, k: Key, f: Contents)
    requires Sound(h, chain) && Agrees(h, chain, f)
    ensures Agrees(h, Find(h, chain, k).1, f)
  {
    if chain != [] && !Holds(chain[0], k) {
      FindAgrees(h, chain[1..], k, f);
      FindAnswers(h, chain[1..], k, k);
      LookupAgrees(h, chain[1..], k, f);
      var (found, rest) := Find(h, chain[1..], k);
      var after := [chain[0]] + rest;
      assert Agrees(h, after, f) && Sound(h, after);
      if found.value.Some? {
        InsertAgrees(h, after, k, f);
      }
    }
  }

  lemma StepAgrees(h: Hash, chain: Chain, op: Op, f: Contents)
    requires Sound(h, chain) && Agrees(h, chain, f) && (op.DoInsert? ==> op.blob == f(op.key))
    ensures var after := Step(h, chain, op).1; Sound(h, after) && Agrees(h, after, f)
  {
    match op
    case DoInsert(k, b, _) => InsertAsyncIsSync(h, chain, k, b); InsertSound(h, chain, k, b); InsertAgrees(h, chain, k, f);
    case DoFind(k, _) => FindAsyncIsSync(h, chain, k); FindAnswers(h, chain, k, k); FindAgrees(h, chain, k, f);
    case DoContains(_, _) =>
  }

  function After(h: Hash, chain: Chain, ops: seq<Op>): Chain
    decreases |ops|
  {
    if ops == [] then chain else After(h, Step(h, chain, ops[0]).1, ops[1..])
  }

  /** If every key is only ever inserted with one blob, any two layers agree at every later time. */
  lemma {:induction false} LayersAgreeForever(h: Hash, chain: Chain, ops: seq<Op>, f: Contents)
    requires Sound(h, chain) && Agrees(h, chain, f) && Consistent(ops, f)
    ensures Sound(h, After(h, chain, ops)) && Agrees(h, After(h, chain, ops), f)
    decreases |ops|
  {
    if ops != [] {
      StepAgrees(h, chain, ops[0], f);
      LayersAgreeForever(h, Step(h, chain, ops[0]).1, ops[1..], f);
    }
  }

  lemma {:induction false} InsertWritable(h: Hash, chain: Chain, k: Key, b: Blob)
    ensures AnyWritable(Insert(h, chain, k, b)) == AnyWritable(chain)
  {
    if chain != [] {
      InsertWritable(h, chain[1..], k, b);
      assert Insert(h, chain, k, b)[1..] == Insert(h, chain[1..], k, b);
    }
  }

  lemma {:induction false} FindWritable(h: Hash, chain: Chain, k: Key)
    ensures AnyWritable(Find(h, chain, k).1) == AnyWritable(chain)
  {
    if chain != [] {
      var local := FindLocal(h, chain[0], k);
      if local.Ok? && local.value.None? {
        FindWritable(h, chain[1..], k);
        var (found, rest) := Find(h, chain[1..], k);
        var after := [chain[0]] + rest;
        assert after[1..] == rest;
        if found.Ok? && found.value.Some? {
          InsertWritable(h, after, k, found.value.value);
        }
      }
    }
  }

  lemma StepWritable(h: Hash, chain: Chain, op: Op)
    ensures AnyWritable(Step(h, chain, op).1) == AnyWritable(chain)
  {
    match op
    case DoInsert(k, b, _) => InsertAsyncIsSync(h, chain, k, b); InsertWritable(h, chain, k, b);
    case DoFind(k, _) => FindAsyncIsSync(h, chain, k); FindWritable(h, chain, k);
    case DoContains(_, _) =>
  }

  /**
   With one blob per key, every chain that has a layer taking writes behaves like a plain map,
   whatever the order of its memory and file layers.
   */
  lemma {:induction false} ConsistentUseIsAMap(h: Hash, chain: Chain, m: map<Key, Blob>, ops: seq<Op>, f: Contents)
    requires Sound(h, chain) && Agrees(h, chain, f) && AnyWritable(chain) && Represents(h, chain, m)
    requires Consistent(ops, f)
    ensures Observe(h, chain, ops) == MapObserve(m, ops)
    decreases |ops|
  {
    if ops != [] {
      var op := ops[0];
      if op.DoInsert? {
        LookupAgrees(h, chain, op.key, f);
      }
      StepRefines(h, chain, m, op);
      StepAgrees(h, chain, op, f);
      StepWritable(h, chain, op);
      ConsistentUseIsAMap(h, Step(h, chain, op).1, MapStep(m, op).1, ops[1..], f);
    }
  }

  /**
   The exact condition, one write at a time: an insertion followed by a search of the same key looks
   like the map's exactly when the insertion reads back.
   */
  lemma WriteVisibleExactly(h: Hash, chain: Chain, m: map<Key, Blob>, k: Key, b: Blob)
    requires Sound(h, chain) && Represents(h, chain, m)
    ensures var ops := [DoInsert(k, b, false), DoFind(k, false)];
            Observe(h, chain, ops) == MapObserve(m, ops) <==> ReadsBack(h, chain, k, b)
  {
    var w, r := DoInsert(k, b, false), DoFind(k, false);
    var ops := [w, r];
    assert ops[1..] == [r] && [r][1..] == [];
    var one := Insert(h, chain, k, b);
    InsertSound(h, chain, k, b);
    LookupAfterInsert(h, chain, k, b, k);
    FindAnswers(h, one, k, k);
    assert Observe(h, one, [r]) == [Found(Ok(Lookup(h, one, k)))] + [];
    assert MapObserve(m[k := b], [r]) == [Found(Ok(Some(b)))] + [];
    assert Observe(h, chain, ops) == [Inserted] + Observe(h, one, [r]);
    assert MapObserve(m, ops) == [Inserted] + MapObserve(m[k := b], [r]);
    assert Observe(h, chain, ops)[1] == Found(Ok(Lookup(h, one, k)));
    assert MapObserve(m, ops)[1] == Found(Ok(Some(b)));
    assert ReadsBack(h, chain, k, b) <==> Lookup(h, one, k) == Some(b);
  }

  /** A write that does not read back: a file layer alone never overwrites. */
  lemma FileLayerKeepsFirstBlob(h: Hash)
    ensures var chain := [Files(false, map[Name([1]) := FileBytes(h, [10])])];
            Sound(h, chain) && !ReadsBack(h, chain, [1], [20]) && Lookup(h, Insert(h, chain, [1], [20]), [1]) == Some([10])
  {
    var k: Key := [1];
    var chain := [Files(false, map[Name(k) := FileBytes(h, [10])])];
    FileRoundTrip(h, [10]);
    assert Holds(chain[0], k) && Entry(h, chain[0], k) == Some([10]);
    assert Sound(h, chain);
    LookupAfterInsert(h, chain, k, [20], k);
  }
}
