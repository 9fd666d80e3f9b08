/**
 The layered blob cache (Cache/lib/BlobCache.cpp) on values: a chain of memory and file layers, the
 synchronous operations that walk it, the asynchronous wrappers, and what a client can observe.
 */
module BlobChain {
  import opened Common
  import Base64

  /** Keys are hashes, never empty. */
  type Key = k: bytes | k != [] witness [0]

  type Blob = bytes

  /** A 128 bit checksum. */
  type Tag = t: bytes | |t| == 16 witness [0, 0, 0, 0, 0, 0, 0, 0, 0, 0, 0, 0, 0, 0, 0, 0]

  type Hash = bytes -> Tag

  datatype Layer =
    | Memory(cache: map<Key, Blob>)
    | Files(readOnly: bool, files: map<string, bytes>)

  type Chain = seq<Layer>

  datatype Error = EmptyFile | Undersized | Corrupted

  type Answer = Result<Option<Blob>, Error>

  function Name(k: Key): string {
    Base64.EncodeURLSafe(k)
  }

  /** A cache file: the blob and its checksum. */
  function FileBytes(h: Hash, blob: Blob): bytes {
    blob + h(blob)
  }

  /** `findSyncImpl` of the file layer on one file's bytes. */
  function ReadFile(h: Hash, file: bytes): Result<Blob, Error> {
    if file == [] then Err(EmptyFile)
    else if |file| < 16 then Err(Undersized)
    else
      var contents := file[..|file| - 16];
      if h(contents) != file[|file| - 16..] then Err(Corrupted) else Ok(contents)
  }

  // ----- one layer -----

  predicate Holds(layer: Layer, k: Key) {
    match layer
    case Memory(cache) => k in cache
    case Files(_, files) => Name(k) in files
  }

  function FindLocal(h: Hash, layer: Layer, k: Key): Answer {
    if !Holds(layer, k) then Ok(None)
    else
      match layer
      case Memory(cache) => Ok(Some(cache[k]))
      case Files(_, files) =>
        match ReadFile(h, files[Name(k)])
        case Err(e) => Err(e)
        case Ok(b) => Ok(Some(b))
  }

  // ----- the chain, synchronously -----

  function Contains(chain: Chain, k: Key): bool {
    chain != [] && (Holds(chain[0], k) || Contains(chain[1..], k))
  }

  /**
   `insertSyncImpl` of the first layer.  A memory layer overwrites; a file layer writes nothing when
   the key is present anywhere from it on, since it asks `containsSync`, which walks the delegates.
   */
  function InsertLocal(h: Hash, chain: Chain, k: Key, b: Blob): Layer
    requires chain != []
  {
    match chain[0]
    case Memory(cache) => Memory(cache[k := b])
    case Files(readOnly, files) =>
      if Contains(chain, k) || readOnly then chain[0] else Files(readOnly, files[Name(k) := FileBytes(h, b)])
  }

  function Insert(h: Hash, chain: Chain, k: Key, b: Blob): (r: Chain)
    ensures |r| == |chain|
  {
    if chain == [] then [] else [InsertLocal(h, chain, k, b)] + Insert(h, chain[1..], k, b)
  }

  /** The answer and the chain afterwards, with the blob promoted to the layers before its holder. */
  function Find(h: Hash, chain: Chain, k: Key): (r: (Answer, Chain))
    ensures |r.1| == |chain|
  {
    if chain == [] then (Ok(None), chain)
    else
      var local := FindLocal(h, chain[0], k);
      if local.Err? || local.value.Some? then (local, chain)
      else
        var (found, rest) := Find(h, chain[1..], k);
        var after := [chain[0]] + rest;
        if found.Err? || found.value.None? then (found, after)
        else (found, Insert(h, after, k, found.value.value))
  }

  // ----- the asynchronous wrappers: the default task runs the whole synchronous form, then the
  //       delegate is visited once more -----

  function InsertAsync(h: Hash, chain: Chain, k: Key, b: Blob): (r: Chain)
    ensures |r| == |chain|
    decreases |chain|
  {
    var task := Insert(h, chain, k, b);
    if |chain| <= 1 then task else [task[0]] + InsertAsync(h, task[1..], k, b)
  }

  function ContainsAsync(chain: Chain, k: Key): bool {
    Contains(chain, k) || (|chain| > 1 && ContainsAsync(chain[1..], k))
  }

  function FindAsync(h: Hash, chain: Chain, k: Key): (r: (Answer, Chain))
    ensures |r.1| == |chain|
    decreases |chain|
  {
    var (found, task) := Find(h, chain, k);
    if |chain| <= 1 || found.Err? || found.value.Some? then (found, task)
    else
      var (again, rest) := FindAsync(h, task[1..], k);
      var after := [task[0]] + rest;
      if again.Err? || again.value.None? then (again, after)
      else (again, InsertAsync(h, after, k, again.value.value))
  }

  // ----- soundness of the files -----

  ghost predicate SoundLayer(h: Hash, layer: Layer) {
    layer.Files? ==> forall n | n in layer.files :: ReadFile(h, layer.files[n]).Ok?
  }

  ghost predicate Sound(h: Hash, chain: Chain) {
    forall i | 0 <= i < |chain| :: SoundLayer(h, chain[i])
  }

  lemma FileRoundTrip(h: Hash, b: Blob)
    ensures ReadFile(h, FileBytes(h, b)) == Ok(b)
  {
    var f := FileBytes(h, b);
    assert f[..|f| - 16] == b && f[|f| - 16..] == h(b);
  }

  /**
   A file reads as a blob if and only if it is the blob followed by its checksum; a longer one whose last
   sixteen bytes are not the checksum of the rest is reported as corrupted.
   */
  lemma ReadFileExactly(h: Hash, file: bytes, b: Blob)
    ensures ReadFile(h, file) == Ok(b) <==> file == b + h(b)
    ensures ReadFile(h, file) == Err(EmptyFile) <==> file == []
    ensures ReadFile(h, file) == Err(Undersized) <==> 0 < |file| < 16
    ensures ReadFile(h, file) == Err(Corrupted) <==> |file| >= 16 && h(file[..|file| - 16]) != file[|file| - 16..]
  {
    if |file| >= 16 {
      assert file == file[..|file| - 16] + file[|file| - 16..];
    }
    if file == b + h(b) {
      assert file[..|file| - 16] == b && file[|file| - 16..] == h(b);
    }
  }

  /** What one sound layer answers. */
  function Entry(h: Hash, layer: Layer, k: Key): (r: Option<Blob>)
    ensures r.Some? ==> Holds(layer, k)
  {
    match FindLocal(h, layer, k)
    case Ok(r) => r
    case Err(_) => None
  }

  lemma SoundEntry(h: Hash, layer: Layer, k: Key)
    requires SoundLayer(h, layer)
    ensures FindLocal(h, layer, k) == Ok(Entry(h, layer, k)) && (Entry(h, layer, k).Some? <==> Holds(layer, k))
  {
  }

  /** The blob of the first layer that holds the key. */
  function Lookup(h: Hash, chain: Chain, k: Key): Option<Blob> {
    if chain == [] then None
    else if Holds(chain[0], k) then Entry(h, chain[0], k)
    else Lookup(h, chain[1..], k)
  }

  lemma {:induction false} ContainsIffLookup(h: Hash, chain: Chain, k: Key)
    requires Sound(h, chain)
    ensures Contains(chain, k) <==> Lookup(h, chain, k).Some?
  {
    if chain != [] {
      SoundEntry(h, chain[0], k);
      ContainsIffLookup(h, chain[1..], k);
    }
  }

  // ----- insertion -----

  /** Storing in one layer changes the entry of that key only. */
  lemma StoredEntry(h: Hash, layer: Layer, k: Key, b: Blob, other: Key)
    requires SoundLayer(h, layer)
    ensures var l := Stored(h, layer, k, b);
            && SoundLayer(h, l)
            && Holds(l, other) == (other == k || Holds(layer, other))
            && Entry(h, l, other) == if other == k then Some(b) else Entry(h, layer, other)
  {
    FileRoundTrip(h, b);
    if layer.Files? && Name(other) == Name(k) {
      Base64.NamesDistinct(other, k);
    }
  }

  function Stored(h: Hash, layer: Layer, k: Key, b: Blob): Layer {
    match layer
    case Memory(cache) => Memory(cache[k := b])
    case Files(readOnly, files) => Files(readOnly, files[Name(k) := FileBytes(h, b)])
  }

  /** Whether an insertion stores in the first layer. */
  predicate Stores(chain: Chain, k: Key)
    requires chain != []
  {
    chain[0].Memory? || (!chain[0].readOnly && !Contains(chain, k))
  }

  lemma InsertLocalStores(h: Hash, chain: Chain, k: Key, b: Blob)
    requires chain != []
    ensures InsertLocal(h, chain, k, b) == if Stores(chain, k) then Stored(h, chain[0], k, b) else chain[0]
  {
  }

  lemma {:induction false} InsertSound(h: Hash, chain: Chain, k: Key, b: Blob)
    requires Sound(h, chain)
    ensures Sound(h, Insert(h, chain, k, b))
  {
    if chain != [] {
      InsertSound(h, chain[1..], k, b);
      InsertLocalStores(h, chain, k, b);
      StoredEntry(h, chain[0], k, b, k);
      var r := Insert(h, chain, k, b);
      forall i | 0 <= i < |r| ensures SoundLayer(h, r[i]) {
        if i > 0 {
          assert r[i] == Insert(h, chain[1..], k, b)[i - 1];
        }
      }
    }
  }

  predicate AnyWritable(chain: Chain) {
    chain != [] && (chain[0].Memory? || !chain[0].readOnly || AnyWritable(chain[1..]))
  }

  /** A memory layer stands at or before the first layer that holds the key. */
  predicate MemoryFirst(chain: Chain, k: Key) {
    chain != [] && (chain[0].Memory? || (!Holds(chain[0], k) && MemoryFirst(chain[1..], k)))
  }

  /**
   When an inserted blob is the one found afterwards, in terms of the chain before the insertion: a
   new key needs a layer that takes writes, a known key a memory layer in front of its holder, unless
   the stored blob is the same anyway.
   */
  predicate ReadsBack(h: Hash, chain: Chain, k: Key, b: Blob) {
    if Lookup(h, chain, k).None? then AnyWritable(chain)
    else MemoryFirst(chain, k) || Lookup(h, chain, k) == Some(b)
  }

  /** The answer after an insertion, for every chain, key and blob. */
  lemma {:induction false} LookupAfterInsert(h: Hash, chain: Chain, k: Key, b: Blob, other: Key)
    requires Sound(h, chain)
    ensures Lookup(h, Insert(h, chain, k, b), other)
         == if other == k && ReadsBack(h, chain, k, b) then Some(b) else Lookup(h, chain, other)
  {
    if chain != [] {
      var rest := chain[1..];
      LookupAfterInsert(h, rest, k, b, other);
      InsertLocalStores(h, chain, k, b);
      StoredEntry(h, chain[0], k, b, other);
      SoundEntry(h, chain[0], other);
      ContainsIffLookup(h, chain, k);
      ContainsIffLookup(h, rest, k);
      var r := Insert(h, chain, k, b);
      assert r[1..] == Insert(h, rest, k, b);
    }
  }

  lemma InsertReadsBackExactly(h: Hash, chain: Chain, k: Key, b: Blob)
    requires Sound(h, chain)
    ensures Lookup(h, Insert(h, chain, k, b), k) == Some(b) <==> ReadsBack(h, chain, k, b)
  {
    LookupAfterInsert(h, chain, k, b, k);
  }

  // ----- search -----

  /**
   `findSync` answers with the first holder's blob, `containsSync` agrees, and the promotion it
   performs changes no answer of the chain for any key.
   */
  lemma {:induction false} FindAnswers(h: Hash, chain: Chain, k: Key, other: Key)
    requires Sound(h, chain)
    ensures Find(h, chain, k).0 == Ok(Lookup(h, chain, k))
    ensures Sound(h, Find(h, chain, k).1)
    ensures Lookup(h, Find(h, chain, k).1, other) == Lookup(h, chain, other)
  {
    if chain != [] {
      SoundEntry(h, chain[0], k);
      if !Holds(chain[0], k) {
        FindAnswers(h, chain[1..], k, other);
        FindAnswers(h, chain[1..], k, k);
        var (found, rest) := Find(h, chain[1..], k);
        var after := [chain[0]] + rest;
        assert after[1..] == rest;
        assert Sound(h, after);
        if found.value.Some? {
          InsertSound(h, after, k, found.value.value);
          LookupAfterInsert(h, after, k, found.value.value, other);
        }
      }
    }
  }

  /** Whatever the files hold: `containsSync` says yes exactly when `findSync` finds a blob or fails on one. */
  lemma {:induction false} ContainsIffNotAbsent(h: Hash, chain: Chain, k: Key)
    ensures Contains(chain, k) <==> Find(h, chain, k).0 != Ok(None)
  {
    if chain != [] {
      ContainsIffNotAbsent(h, chain[1..], k);
    }
  }

  /** An unsuccessful search changes nothing at all. */
  lemma {:induction false} MissChangesNothing(h: Hash, chain: Chain, k: Key)
    requires Find(h, chain, k).0 == Ok(None)
    ensures Find(h, chain, k).1 == chain
  {
    if chain != [] {
      MissChangesNothing(h, chain[1..], k);
      assert [chain[0]] + chain[1..] == chain;
    }
  }

  lemma {:induction false} FoundIsHeld(h: Hash, chain: Chain, k: Key)
    requires Find(h, chain, k).0.Ok? && Find(h, chain, k).0.value.Some?
    ensures Contains(Find(h, chain, k).1, k)
  {
    if !Holds(chain[0], k) {
      FoundIsHeld(h, chain[1..], k);
      var (found, rest) := Find(h, chain[1..], k);
      var after := [chain[0]] + rest;
      assert after[1..] == rest;
      ContainsAfterInsert(h, after, k, found.value.value);
    }
  }

  /**
   Promotion reaches memory layers only.  A blob found further on is stored in a memory layer in
   front; a file layer in front is left as it was, because its own presence test sees the blob in the
   layers behind it.
   */
  lemma PromotionOnlyIntoMemory(h: Hash, chain: Chain, k: Key)
    requires chain != [] && !Holds(chain[0], k)
    requires Find(h, chain, k).0.Ok? && Find(h, chain, k).0.value.Some?
    ensures chain[0].Files? ==> Find(h, chain, k).1[0] == chain[0]
    ensures chain[0].Memory? ==> Find(h, chain, k).1[0] == Memory(chain[0].cache[k := Find(h, chain, k).0.value.value])
  {
    FoundIsHeld(h, chain[1..], k);
    var (_, rest) := Find(h, chain[1..], k);
    assert ([chain[0]] + rest)[1..] == rest;
  }

  // ----- asynchronous forms -----

  lemma {:induction false} ContainsAfterInsert(h: Hash, chain: Chain, k: Key, b: Blob)
    ensures Contains(chain, k) ==> Contains(Insert(h, chain, k, b), k)
    ensures chain != [] && Stores(chain, k) ==> Contains(Insert(h, chain, k, b), k)
  {
    if chain != [] {
      ContainsAfterInsert(h, chain[1..], k, b);
      InsertLocalStores(h, chain, k, b);
      assert Insert(h, chain, k, b)[1..] == Insert(h, chain[1..], k, b);
    }
  }

  /** Inserting twice is inserting once, layer by layer. */
  lemma {:induction false} InsertIdempotent(h: Hash, chain: Chain, k: Key, b: Blob)
    ensures Insert(h, Insert(h, chain, k, b), k, b) == Insert(h, chain, k, b)
  {
    if chain != [] {
      var once := Insert(h, chain, k, b);
      InsertIdempotent(h, chain[1..], k, b);
      assert once[1..] == Insert(h, chain[1..], k, b);
      ContainsAfterInsert(h, chain, k, b);
      InsertLocalStores(h, chain, k, b);
      InsertLocalStores(h, once, k, b);
      assert InsertLocal(h, once, k, b) == once[0];
    }
  }

  /** The asynchronous insertion, which repeats the tail of the chain, leaves every layer the same. */
  lemma {:induction false} InsertAsyncIsSync(h: Hash, chain: Chain, k: Key, b: Blob)
    ensures InsertAsync(h, chain, k, b) == Insert(h, chain, k, b)
    decreases |chain|
  {
    if |chain| > 1 {
      var task := Insert(h, chain, k, b);
      assert task[1..] == Insert(h, chain[1..], k, b);
      InsertAsyncIsSync(h, task[1..], k, b);
      InsertIdempotent(h, chain[1..], k, b);
      assert [task[0]] + task[1..] == task;
    }
  }

  lemma {:induction false} ContainsAsyncIsSync(chain: Chain, k: Key)
    ensures ContainsAsync(chain, k) == Contains(chain, k)
  {
    if |chain| > 1 {
      ContainsAsyncIsSync(chain[1..], k);
    }
  }

  lemma TailMisses(h: Hash, chain: Chain, k: Key)
    requires chain != [] && Find(h, chain, k).0 == Ok(None)
    ensures Find(h, chain[1..], k).0 == Ok(None)
  {
  }

  /** The asynchronous search gives the same answer and leaves every layer the same. */
  lemma {:induction false} FindAsyncIsSync(h: Hash, chain: Chain, k: Key)
    ensures FindAsync(h, chain, k) == Find(h, chain, k)
    decreases |chain|
  {
    if |chain| > 1 && Find(h, chain, k).0 == Ok(None) {
      MissChangesNothing(h, chain, k);
      TailMisses(h, chain, k);
      MissChangesNothing(h, chain[1..], k);
      FindAsyncIsSync(h, chain[1..], k);
      assert [chain[0]] + chain[1..] == chain;
    }
  }

  // ----- damaged files -----

  /** Layer i is the first that holds the key. */
  predicate FirstHolder(chain: Chain, i: int, k: Key) {
    0 <= i < |chain| && Holds(chain[i], k) && forall j | 0 <= j < i :: !Holds(chain[j], k)
  }

  /** Sound or not: the search answers as the first holder does, damage included, and asks no layer behind it. */
  lemma {:induction false} FindIsFirstHolder(h: Hash, chain: Chain, k: Key, i: int)
    ensures FirstHolder(chain, i, k) ==> Find(h, chain, k).0 == FindLocal(h, chain[i], k)
    ensures (forall j | 0 <= j < |chain| :: !Holds(chain[j], k)) ==> Find(h, chain, k) == (Ok(None), chain)
  {
    if chain != [] {
      var rest := chain[1..];
      FindIsFirstHolder(h, rest, k, i - 1);
      if FirstHolder(chain, i, k) && i > 0 {
        assert rest[i - 1] == chain[i] && forall j | 0 <= j < i - 1 :: rest[j] == chain[j + 1];
        assert FirstHolder(rest, i - 1, k);
      }
      if forall j | 0 <= j < |chain| :: !Holds(chain[j], k) {
        assert forall j | 0 <= j < |rest| :: rest[j] == chain[j + 1];
        assert [chain[0]] + rest == chain;
      }
    }
  }

  /** What a held file answers: its blob if it is one with its checksum, an error otherwise. */
  lemma HeldFileAnswers(h: Hash, readOnly: bool, files: map<string, bytes>, k: Key, b: Blob)
    requires Name(k) in files
    ensures FindLocal(h, Files(readOnly, files), k) == Ok(Some(b)) <==> files[Name(k)] == b + h(b)
    ensures FindLocal(h, Files(readOnly, files), k) != Ok(None)
  {
    ReadFileExactly(h, files[Name(k)], b);
  }
}
