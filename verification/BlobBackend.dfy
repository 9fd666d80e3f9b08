/**
 The linked backends themselves (Cache/include/Cache/BlobCache.h:44-111, Cache/lib/BlobCache.cpp):
 objects that own a layer and point to a delegate.  Every method is shown to do to the list of layers
 what its counterpart on chains does.  The list of backends reachable from an object is passed along
 as a ghost argument.
 */
module BlobBackends {
  import opened BlobChain

  /** The objects form a list through their delegate pointers, without repetition. */
  ghost predicate Linked(c: seq<Backend>)
    reads c`delegate
  {
    && c != []
    && (|c| == 1 ==> c[0].delegate == null)
    && (|c| > 1 ==> c[0].delegate == c[1] && c[0] !in c[1..] && Linked(c[1..]))
  }

  ghost function LayersOf(c: seq<Backend>): (r: Chain)
    reads c`layer
    ensures |r| == |c|
  {
    if c == [] then [] else [c[0].layer] + LayersOf(c[1..])
  }

  lemma {:induction false} LayersAppend(c: seq<Backend>, d: seq<Backend>)
    ensures LayersOf(c + d) == LayersOf(c) + LayersOf(d)
  {
    if c == [] {
      assert c + d == d;
    } else {
      LayersAppend(c[1..], d);
      assert (c + d)[1..] == c[1..] + d;
    }
  }

  class Backend {
    var layer: Layer
    var delegate: Backend?

    constructor (layer: Layer)
      ensures Linked([this]) && LayersOf([this]) == [layer]
    {
      this.layer := layer;
      delegate := null;
    }

    /** `containsSync` */
    method ContainsSync(k: Key, ghost c: seq<Backend>) returns (yes: bool)
      requires Linked(c) && c[0] == this
      ensures yes == Contains(LayersOf(c), k)
      decreases |c|
    {
      if Holds(layer, k) {
        return true;
      }
      if delegate == null {
        return false;
      }
      yes := delegate.ContainsSync(k, c[1..]);
    }

    /** `insertSyncImpl` of the two kinds of layers. */
    method InsertSyncImpl(h: Hash, k: Key, b: Blob, ghost c: seq<Backend>)
      requires Linked(c) && c[0] == this
      modifies this`layer
      ensures layer == InsertLocal(h, old(LayersOf(c)), k, b)
    {
      match layer
      case Memory(cache) => layer := Memory(cache[k := b]);
      case Files(readOnly, files) =>
        var contains := ContainsSync(k, c);
        if contains || readOnly {
          return;
        }
        layer := Files(readOnly, files[Name(k) := FileBytes(h, b)]);
    }

    /** `insertSync` */
    method InsertSync(h: Hash, k: Key, b: Blob, ghost c: seq<Backend>)
      requires Linked(c) && c[0] == this
      modifies c`layer
      ensures LayersOf(c) == Insert(h, old(LayersOf(c)), k, b)
      decreases |c|, 0
    {
      InsertSyncImpl(h, k, b, c);
      if delegate != null {
        delegate.InsertSync(h, k, b, c[1..]);
      }
    }

    /** `findSync` */
    method FindSync(h: Hash, k: Key, ghost c: seq<Backend>) returns (answer: Answer)
      requires Linked(c) && c[0] == this
      modifies c`layer
      ensures (answer, LayersOf(c)) == Find(h, old(LayersOf(c)), k)
      decreases |c|, 1
    {
      answer := FindLocal(h, layer, k);
      if answer.Err? || answer.value.Some? || delegate == null {
        return;
      }
      answer := delegate.FindSync(h, k, c[1..]);
      if answer.Err? || answer.value.None? {
        return;
      }
      InsertSync(h, k, answer.value.value, c);
    }

    /** `insert`: the default task runs `insertSync`, then the delegate is given the blob again. */
    method InsertWrapped(h: Hash, k: Key, b: Blob, ghost c: seq<Backend>)
      requires Linked(c) && c[0] == this
      modifies c`layer
      ensures LayersOf(c) == InsertAsync(h, old(LayersOf(c)), k, b)
      decreases |c|, 2
    {
      InsertSync(h, k, b, c);
      if delegate != null {
        delegate.InsertWrapped(h, k, b, c[1..]);
      }
    }

    /** `contains` */
    method ContainsWrapped(k: Key, ghost c: seq<Backend>) returns (yes: bool)
      requires Linked(c) && c[0] == this
      ensures yes == ContainsAsync(LayersOf(c), k)
      decreases |c|
    {
      yes := ContainsSync(k, c);
      if !yes && delegate != null {
        yes := delegate.ContainsWrapped(k, c[1..]);
      }
    }

    /** `find` */
    method FindWrapped(h: Hash, k: Key, ghost c: seq<Backend>) returns (answer: Answer)
      requires Linked(c) && c[0] == this
      modifies c`layer
      ensures (answer, LayersOf(c)) == FindAsync(h, old(LayersOf(c)), k)
      decreases |c|, 3
    {
      answer := FindSync(h, k, c);
      if answer.Err? || answer.value.Some? || delegate == null {
        return;
      }
      answer := delegate.FindWrapped(h, k, c[1..]);
      if answer.Err? || answer.value.None? {
        return;
      }
      InsertWrapped(h, k, answer.value.value, c);
    }

    /** `appendDelegate`: the other list goes behind the last backend of this one. */
    method AppendDelegate(d: Backend, ghost c: seq<Backend>, ghost dc: seq<Backend>)
      requires Linked(c) && c[0] == this && Linked(dc) && dc[0] == d
      requires forall o | o in c :: o !in dc
      modifies c`delegate
      ensures Linked(c + dc)
      ensures LayersOf(c + dc) == old(LayersOf(c) + LayersOf(dc))
      decreases |c|
    {
      LayersAppend(c, dc);
      assert (c + dc)[1..] == c[1..] + dc;
      if delegate == null {
        delegate := d;
        assert c[1..] + dc == dc;
      } else {
        delegate.AppendDelegate(d, c[1..], dc);
      }
    }
  }
}
