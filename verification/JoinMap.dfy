/**
 The join map from variable entries to records (spikes/mojo-join-map.py:107-191): the scope stack, the
 grouping by record id, and the map's own validation.
 */
module JoinMap {
  import opened Common
  import opened DieAttributes

  predicate IsVar(d: Die) {
    d.tag == "DW_TAG_variable" || d.tag == "DW_TAG_formal_parameter"
  }

  predicate IsScope(d: Die) {
    d.tag == "DW_TAG_subprogram" || d.tag == "DW_TAG_inlined_subroutine"
  }

  // ----- enclosing scopes -----

  /** Entry j encloses position i: everything after it up to i lies deeper. */
  predicate Encloses(order: seq<Die>, j: nat, i: nat)
    requires i < |order|
  {
    j < i && forall k | j < k <= i :: order[k].depth > order[j].depth
  }

  /** The nearest enclosing scope among the first n entries. */
  function NearestBelow(order: seq<Die>, i: nat, n: nat): (r: Option<nat>)
    requires n <= i < |order|
    ensures r.Some? ==> r.value < n && Encloses(order, r.value, i) && IsScope(order[r.value])
    ensures r.Some? ==> forall j | r.value < j < n :: !(Encloses(order, j, i) && IsScope(order[j]))
    ensures r.None? ==> forall j | 0 <= j < n :: !(Encloses(order, j, i) && IsScope(order[j]))
  {
    if n == 0 then None
    else if Encloses(order, n - 1, i) && IsScope(order[n - 1]) then Some(n - 1)
    else NearestBelow(order, i, n - 1)
  }

  function Nearest(order: seq<Die>, i: nat): Option<nat>
    requires i < |order|
  {
    NearestBelow(order, i, i)
  }

  /** One entry more: a variable that has an enclosing scope is mapped to it. */
  function WithScope(order: seq<Die>, out: map<Offset, Die>, i: nat): map<Offset, Die>
    requires i < |order|
  {
    var s := Nearest(order, i);
    if IsVar(order[i]) && s.Some? then out[order[i].off := order[s.value]] else out
  }

  /** Every variable's nearest enclosing scope, by offset, over the first n entries. */
  function ScopesUpTo(order: seq<Die>, n: nat): map<Offset, Die>
    requires n <= |order|
  {
    if n == 0 then map[] else WithScope(order, ScopesUpTo(order, n - 1), n - 1)
  }

  /** Entry j is still on the stack when position i is about to be handled. */
  predicate Open(order: seq<Die>, j: nat, i: nat)
    requires i <= |order|
  {
    j < i && forall k | j < k < i :: order[k].depth > order[j].depth
  }

  /** The stack before position i: exactly the open entries, outermost first, depths increasing. */
  ghost predicate StackOk(order: seq<Die>, stack: seq<nat>, i: nat)
    requires i <= |order|
  {
    && (forall a | 0 <= a < |stack| :: stack[a] < i)
    && (forall j: nat :: Open(order, j, i) <==> j in stack)
    && (forall a, b | 0 <= a < b < |stack| :: stack[a] < stack[b] && order[stack[a]].depth < order[stack[b]].depth)
  }

  /** The stack while position i is popping: what encloses i is kept, the rest is as deep or deeper. */
  ghost predicate PoppingOk(order: seq<Die>, stack: seq<nat>, i: nat)
    requires i < |order|
  {
    && (forall a | 0 <= a < |stack| :: stack[a] < i && Open(order, stack[a], i))
    && (forall j: nat :: Encloses(order, j, i) ==> j in stack)
    && (forall a, b | 0 <= a < b < |stack| :: stack[a] < stack[b] && order[stack[a]].depth < order[stack[b]].depth)
  }

  lemma PopOne(order: seq<Die>, stack: seq<nat>, i: nat)
    requires i < |order| && PoppingOk(order, stack, i) && stack != []
    requires order[stack[|stack| - 1]].depth >= order[i].depth
    ensures PoppingOk(order, stack[..|stack| - 1], i)
  {
    var rest, top := stack[..|stack| - 1], stack[|stack| - 1];
    assert stack == rest + [top];
    forall j: nat | Encloses(order, j, i) ensures j in rest {
      assert j in stack && order[i].depth > order[j].depth;
    }
  }

  /** When popping stops, the stack is exactly the chain of entries that enclose position i. */
  lemma PoppedIsAncestors(order: seq<Die>, stack: seq<nat>, i: nat)
    requires i < |order| && PoppingOk(order, stack, i)
    requires stack != [] ==> order[stack[|stack| - 1]].depth < order[i].depth
    ensures forall j: nat :: Encloses(order, j, i) <==> j in stack
    ensures StackOk(order, stack + [i], i + 1)
  {
    forall j: nat | j in stack ensures Encloses(order, j, i) {
      assert Open(order, j, i);
    }
    forall j: nat ensures Open(order, j, i + 1) <==> j in stack + [i] {
      if j < i {
        assert Open(order, j, i + 1) <==> Encloses(order, j, i);
      }
    }
  }

  /** The inner loop: everything as deep as the new entry, or deeper, leaves the stack. */
  method PopTo(order: seq<Die>, full: seq<nat>, i: nat) returns (stack: seq<nat>)
    requires i < |order| && StackOk(order, full, i)
    ensures forall j: nat :: Encloses(order, j, i) <==> j in stack
    ensures forall a, b | 0 <= a < b < |stack| :: stack[a] < stack[b]
    ensures forall a | 0 <= a < |stack| :: stack[a] < i
    ensures StackOk(order, stack + [i], i + 1)
  {
    stack := full;
    forall j: nat | Encloses(order, j, i) ensures j in stack {
      assert Open(order, j, i);
    }
    while stack != [] && order[stack[|stack| - 1]].depth >= order[i].depth
      invariant PoppingOk(order, stack, i)
    {
      PopOne(order, stack, i);
      stack := stack[..|stack| - 1];
    }
    PoppedIsAncestors(order, stack, i);
  }

  lemma ScopesNext(order: seq<Die>, i: nat, before: map<Offset, Die>, out: map<Offset, Die>)
    requires i < |order| && before == ScopesUpTo(order, i) && out == WithScope(order, before, i)
    ensures out == ScopesUpTo(order, i + 1)
  {
  }

  /** `enclosing_scopes`; stack entries are references to dies, here their positions. */
  method EnclosingScopes(order: seq<Die>) returns (out: map<Offset, Die>)
    ensures out == ScopesUpTo(order, |order|)
    ensures ScopesRight(order, out, |order|)
  {
    var stack: seq<nat> := [];
    out := map[];
    var i := 0;
    while i < |order|
      invariant 0 <= i <= |order| && StackOk(order, stack, i) && out == ScopesUpTo(order, i)
    {
      var die := order[i];
      ghost var before := out;
      stack := PopTo(order, stack, i);
      if IsVar(die) {
        var scope := InnermostScope(order, stack, i);
        if scope.Some? {
          out := out[die.off := order[scope.value]];
        }
      }
      ScopesNext(order, i, before, out);
      stack := stack + [i];
      i := i + 1;
    }
    ScopesExactly(order);
  }

  /** The search of the popped stack from its top. */
  method InnermostScope(order: seq<Die>, stack: seq<nat>, i: nat) returns (r: Option<nat>)
    requires i < |order| && (forall j: nat :: Encloses(order, j, i) <==> j in stack)
    requires forall a, b | 0 <= a < b < |stack| :: stack[a] < stack[b]
    requires forall a | 0 <= a < |stack| :: stack[a] < i
    ensures r == Nearest(order, i)
  {
    var a := |stack|;
    while a > 0
      invariant 0 <= a <= |stack|
      invariant forall b | a <= b < |stack| :: !IsScope(order[stack[b]])
    {
      a := a - 1;
      if IsScope(order[stack[a]]) {
        NearestUnique(order, i, stack[a]);
        return Some(stack[a]);
      }
    }
    r := None;
  }

  lemma NearestUnique(order: seq<Die>, i: nat, j: nat)
    requires i < |order| && Encloses(order, j, i) && IsScope(order[j])
    requires forall k | j < k < i :: !(Encloses(order, k, i) && IsScope(order[k]))
    ensures Nearest(order, i) == Some(j)
  {
    var r := Nearest(order, i);
    assert r.Some?;
    assert r.value >= j;
  }

  // ----- what the scopes are, from the entries alone -----

  predicate Variable(order: seq<Die>, i: int) {
    0 <= i < |order| && (order[i].tag == "DW_TAG_variable" || order[i].tag == "DW_TAG_formal_parameter")
  }

  /** Entry j is a scope, stands before i, and everything from there up to i lies deeper. */
  predicate ScopeAbove(order: seq<Die>, i: int, j: int)
    requires 0 <= i < |order|
  {
    && 0 <= j < i
    && (order[j].tag == "DW_TAG_subprogram" || order[j].tag == "DW_TAG_inlined_subroutine")
    && forall k | j < k <= i :: order[k].depth > order[j].depth
  }

  /** The last of them. */
  predicate ScopeOf(order: seq<Die>, i: int, j: int)
    requires 0 <= i < |order|
  {
    ScopeAbove(order, i, j) && forall k | j < k < i :: !ScopeAbove(order, i, k)
  }

  /** Entry i is a variable with this offset and lies in the scope at j. */
  predicate ScopedVar(order: seq<Die>, i: int, j: int, o: Offset) {
    Variable(order, i) && order[i].off == o && ScopeOf(order, i, j)
  }

  /** Over the first n entries: the last variable entry with this offset that lies in a scope decides. */
  ghost predicate ScopeRight(order: seq<Die>, out: map<Offset, Die>, n: nat, o: Offset)
    requires n <= |order|
  {
    && (forall i, j | 0 <= i < n && ScopedVar(order, i, j, o) :: o in out)
    && (o in out ==> LeadsTo(order, o, out[o], n))
  }

  /** For every offset. */
  ghost predicate ScopesRight(order: seq<Die>, out: map<Offset, Die>, n: nat)
    requires n <= |order|
  {
    forall o :: ScopeRight(order, out, n, o)
  }

  /** The last variable among the first n with this offset that lies in a scope lies in d. */
  ghost predicate LeadsTo(order: seq<Die>, o: Offset, d: Die, n: nat)
    requires n <= |order|
  {
    exists i, j :: LastScoped(order, i, j, o, n) && order[j] == d
  }

  ghost predicate LastScoped(order: seq<Die>, i: int, j: int, o: Offset, n: nat)
    requires n <= |order|
  {
    0 <= i < n && ScopedVar(order, i, j, o) && forall k, m | i < k < n :: !ScopedVar(order, k, m, o)
  }

  lemma NearestIsScopeOf(order: seq<Die>, i: nat, j: int)
    requires i < |order|
    ensures ScopeOf(order, i, j) <==> j >= 0 && Nearest(order, i) == Some(j)
  {
    var r := Nearest(order, i);
    assert forall k: nat | k < i :: ScopeAbove(order, i, k) <==> Encloses(order, k, i) && IsScope(order[k]);
    if ScopeOf(order, i, j) {
      assert Encloses(order, j, i) && IsScope(order[j]);
      assert r.Some? && r.value >= j;
      assert ScopeAbove(order, i, r.value);
    }
    if r == Some(j) && j >= 0 {
      assert ScopeAbove(order, i, j);
    }
  }

  lemma ScopeUnique(order: seq<Die>, i: nat, j: int, k: int)
    requires i < |order| && ScopeOf(order, i, j) && ScopeOf(order, i, k)
    ensures j == k
  {
  }

  lemma LastStays(order: seq<Die>, o: Offset, d: Die, n: nat)
    requires n < |order| && LeadsTo(order, o, d, n) && forall j :: !ScopedVar(order, n, j, o)
    ensures LeadsTo(order, o, d, n + 1)
  {
    var i, j :| LastScoped(order, i, j, o, n) && order[j] == d;
    assert LastScoped(order, i, j, o, n + 1);
  }

  lemma ScopedStep(order: seq<Die>, out: map<Offset, Die>, n: nat, j: nat, o: Offset)
    requires n < |order| && ScopeRight(order, out, n, o) && ScopedVar(order, n, j, order[n].off)
    ensures ScopeRight(order, out[order[n].off := order[j]], n + 1, o)
  {
    if o == order[n].off {
      assert LastScoped(order, n, j, o, n + 1);
    } else if o in out {
      LastStays(order, o, out[o], n);
    }
  }

  lemma UnscopedStep(order: seq<Die>, out: map<Offset, Die>, n: nat, o: Offset)
    requires n < |order| && ScopeRight(order, out, n, o) && forall j :: !ScopedVar(order, n, j, o)
    ensures ScopeRight(order, out, n + 1, o)
  {
    if o in out {
      LastStays(order, o, out[o], n);
    }
  }

  lemma ScopesStep(order: seq<Die>, out: map<Offset, Die>, n: nat, o: Offset)
    requires n < |order| && ScopeRight(order, out, n, o)
    ensures ScopeRight(order, WithScope(order, out, n), n + 1, o)
  {
    var s := Nearest(order, n);
    if IsVar(order[n]) && s.Some? {
      NearestIsScopeOf(order, n, s.value);
      ScopedStep(order, out, n, s.value, o);
    } else {
      forall j ensures !ScopedVar(order, n, j, o) {
        NearestIsScopeOf(order, n, j);
      }
      UnscopedStep(order, out, n, o);
    }
  }

  lemma {:induction false} ScopeExactly(order: seq<Die>, n: nat, o: Offset)
    requires n <= |order|
    ensures ScopeRight(order, ScopesUpTo(order, n), n, o)
  {
    if n > 0 {
      ScopeExactly(order, n - 1, o);
      ScopesStep(order, ScopesUpTo(order, n - 1), n - 1, o);
    }
  }

  /** Exactly the variables that lie in a scope are mapped, each to its nearest one. */
  lemma ScopesExactly(order: seq<Die>)
    ensures ScopesRight(order, ScopesUpTo(order, |order|), |order|)
  {
    forall o ensures ScopeRight(order, ScopesUpTo(order, |order|), |order|, o) {
      ScopeExactly(order, |order|, o);
    }
  }

  // ----- building the map -----

  datatype Record<Key> = Record(key: Key, dies: seq<Offset>)

  /** `record_key` and `record_id`, as functions of an entry and of a key. */
  datatype Naming<!Key, !Rid> = Naming(key: (Die, Option<Die>) -> Key, id: Key -> Rid)

  datatype Doc<Key, Rid> = Doc(records: map<Rid, Record<Key>>, offsets: map<Offset, Rid>)

  function KeyOf<Key, Rid>(n: Naming<Key, Rid>, scopes: map<Offset, Die>, d: Die): Key {
    n.key(d, if d.off in scopes then Some(scopes[d.off]) else None)
  }

  function RidOf<Key, Rid>(n: Naming<Key, Rid>, scopes: map<Offset, Die>, d: Die): Rid {
    n.id(KeyOf(n, scopes, d))
  }

  function AddDie<Key, Rid(==)>(n: Naming<Key, Rid>, scopes: map<Offset, Die>, doc: Doc<Key, Rid>, d: Die): Doc<Key, Rid> {
    if !IsVar(d) then doc
    else
      var rid := RidOf(n, scopes, d);
      var rec := if rid in doc.records then doc.records[rid] else Record(KeyOf(n, scopes, d), []);
      Doc(doc.records[rid := rec.(dies := rec.dies + [d.off])], doc.offsets[d.off := rid])
  }

  function Built<Key, Rid(==)>(n: Naming<Key, Rid>, scopes: map<Offset, Die>, order: seq<Die>): Doc<Key, Rid> {
    if order == [] then Doc(map[], map[])
    else AddDie(n, scopes, Built(n, scopes, order[..|order| - 1]), order[|order| - 1])
  }

  /** The loop of `build`. */
  method Build<Key, Rid(==)>(n: Naming<Key, Rid>, order: seq<Die>) returns (doc: Doc<Key, Rid>)
    ensures doc == Built(n, ScopesUpTo(order, |order|), order)
    ensures forall o :: o in doc.offsets <==> exists i :: Variable(order, i) && order[i].off == o
    ensures DistinctVariables(order) ==> forall i | Variable(order, i) :: Filed(n, order, doc, i)
  {
    BuiltExactly(n, order);
    var scopes := EnclosingScopes(order);
    doc := Doc(map[], map[]);
    for i := 0 to |order|
      invariant doc == Built(n, scopes, order[..i])
    {
      assert order[..i + 1][..i] == order[..i];
      if IsVar(order[i]) {
        ghost var before := doc;
        doc := AddVariable(n, scopes, doc, order[i]);
        AddedIsAddDie(n, scopes, before, order[i], doc);
      }
    }
    assert order[..|order|] == order;
  }

  /**
   The record of the id gains the offset at its end and keeps its key, or is created with the key given;
   the offset now leads to it; no other record and no other offset changes.
   */
  ghost predicate EntryAdded<Key, Rid>(doc: Doc<Key, Rid>, r: Doc<Key, Rid>, off: Offset, key: Key, rid: Rid) {
    && r.records.Keys == doc.records.Keys + {rid}
    && r.records[rid].dies == (if rid in doc.records then doc.records[rid].dies else []) + [off]
    && r.records[rid].key == (if rid in doc.records then doc.records[rid].key else key)
    && (forall other | other in doc.records && other != rid :: r.records[other] == doc.records[other])
    && r.offsets.Keys == doc.offsets.Keys + {off} && r.offsets[off] == rid
    && (forall o | o in doc.offsets && o != off :: r.offsets[o] == doc.offsets[o])
  }

  lemma AddedIsAddDie<Key, Rid>(n: Naming<Key, Rid>, scopes: map<Offset, Die>, doc: Doc<Key, Rid>, die: Die, r: Doc<Key, Rid>)
    requires IsVar(die) && EntryAdded(doc, r, die.off, KeyOf(n, scopes, die), RidOf(n, scopes, die))
    ensures r == AddDie(n, scopes, doc, die)
  {
    var d := AddDie(n, scopes, doc, die);
    assert r.records == d.records && r.offsets == d.offsets;
  }

  /** `setdefault`, append, and the entry in the offset table. */
  method AddVariable<Key, Rid(==)>(n: Naming<Key, Rid>, scopes: map<Offset, Die>, doc: Doc<Key, Rid>, die: Die)
    returns (r: Doc<Key, Rid>)
    requires IsVar(die)
    ensures EntryAdded(doc, r, die.off, KeyOf(n, scopes, die), RidOf(n, scopes, die))
  {
    var key := KeyOf(n, scopes, die);
    var rid := n.id(key);
    var records := doc.records;
    if rid !in records {
      records := records[rid := Record(key, [])];
    }
    records := records[rid := records[rid].(dies := records[rid].dies + [die.off])];
    r := Doc(records, doc.offsets[die.off := rid]);
  }

  /** The offsets of the variable entries whose record id is rid, in order. */
  function Members<Key, Rid(==)>(n: Naming<Key, Rid>, scopes: map<Offset, Die>, order: seq<Die>, rid: Rid): seq<Offset> {
    if order == [] then []
    else
      var d := order[|order| - 1];
      Members(n, scopes, order[..|order| - 1], rid)
      + (if IsVar(d) && RidOf(n, scopes, d) == rid then [d.off] else [])
  }

  /** Entry i is a variable entry with the offset. */
  predicate VarAt(order: seq<Die>, i: int, o: Offset) {
    0 <= i < |order| && IsVar(order[i]) && order[i].off == o
  }

  /** A record for every id that occurs, holding exactly the entries with that id, in order. */
  lemma {:induction false} RecordsExact<Key, Rid>(n: Naming<Key, Rid>, scopes: map<Offset, Die>, order: seq<Die>, r: Rid)
    ensures var doc := Built(n, scopes, order);
            && (r in doc.records <==> Members(n, scopes, order, r) != [])
            && (r in doc.records ==> doc.records[r].dies == Members(n, scopes, order, r))
  {
    if order != [] {
      RecordsExact(n, scopes, order[..|order| - 1], r);
    }
  }

  lemma {:induction false} MemberIff<Key, Rid>(n: Naming<Key, Rid>, scopes: map<Offset, Die>, order: seq<Die>, r: Rid, o: Offset)
    ensures o in Members(n, scopes, order, r) <==> exists i :: VarAt(order, i, o) && RidOf(n, scopes, order[i]) == r
  {
    if order != [] {
      var most := order[..|order| - 1];
      MemberIff(n, scopes, most, r, o);
      if o in Members(n, scopes, most, r) {
        var i :| VarAt(most, i, o) && RidOf(n, scopes, most[i]) == r;
        assert VarAt(order, i, o) && RidOf(n, scopes, order[i]) == r;
      } else if o in Members(n, scopes, order, r) {
        assert VarAt(order, |order| - 1, o);
      }
      if i :| VarAt(order, i, o) && RidOf(n, scopes, order[i]) == r {
        assert i < |most| ==> VarAt(most, i, o);
      }
    }
  }

  /** The offset table covers exactly the variable entries and names the id of one with that offset. */
  lemma {:induction false} OffsetsExact<Key, Rid>(n: Naming<Key, Rid>, scopes: map<Offset, Die>, order: seq<Die>, o: Offset)
    ensures var doc := Built(n, scopes, order);
            && (o in doc.offsets <==> exists i :: VarAt(order, i, o))
            && (o in doc.offsets ==> exists i :: VarAt(order, i, o) && RidOf(n, scopes, order[i]) == doc.offsets[o])
  {
    if order != [] {
      var most, last := order[..|order| - 1], |order| - 1;
      OffsetsExact(n, scopes, most, o);
      var was, doc := Built(n, scopes, most), Built(n, scopes, order);
      if VarAt(order, last, o) {
        assert doc.offsets[o] == RidOf(n, scopes, order[last]);
      } else {
        if o in was.offsets {
          var i :| VarAt(most, i, o) && RidOf(n, scopes, most[i]) == was.offsets[o];
          assert VarAt(order, i, o) && RidOf(n, scopes, order[i]) == doc.offsets[o];
        }
        if i :| VarAt(order, i, o) {
          assert VarAt(most, i, o);
        }
      }
    }
  }

  // ----- where every variable is filed, from the entries alone -----

  /** Entry i is filed under the id of the key of the entry and its nearest scope, if it has one. */
  ghost predicate Filed<Key, Rid>(n: Naming<Key, Rid>, order: seq<Die>, doc: Doc<Key, Rid>, i: int)
    requires 0 <= i < |order|
  {
    && order[i].off in doc.offsets
    && (forall j | ScopeOf(order, i, j) :: doc.offsets[order[i].off] == n.id(n.key(order[i], Some(order[j]))))
    && ((forall j :: !ScopeOf(order, i, j)) ==> doc.offsets[order[i].off] == n.id(n.key(order[i], None)))
    && Listed(doc, order[i].off)
  }

  ghost predicate DistinctVariables(order: seq<Die>) {
    forall i, j | i < j && Variable(order, i) && Variable(order, j) :: order[i].off != order[j].off
  }

  lemma DistinctAlike(order: seq<Die>)
    ensures DistinctVariables(order) <==> DistinctOffsets(order)
  {
    assert forall i | 0 <= i < |order| :: Variable(order, i) <==> IsVar(order[i]);
  }

  lemma OnlyOne(order: seq<Die>, i: nat, o: Offset, d: Die)
    requires DistinctVariables(order) && i < |order| && Variable(order, i) && order[i].off == o
    requires LeadsTo(order, o, d, |order|)
    ensures exists j :: ScopeOf(order, i, j) && order[j] == d
  {
    var k, j :| LastScoped(order, k, j, o, |order|) && order[j] == d;
    assert k == i;
  }

  /** The scope looked up for a variable is its own. */
  lemma OwnScope(order: seq<Die>, i: nat, out: map<Offset, Die>)
    requires DistinctVariables(order) && i < |order| && Variable(order, i) && ScopesRight(order, out, |order|)
    ensures forall j | ScopeOf(order, i, j) :: order[i].off in out && out[order[i].off] == order[j]
    ensures (forall j :: !ScopeOf(order, i, j)) ==> order[i].off !in out
  {
    var o := order[i].off;
    assert ScopeRight(order, out, |order|, o);
    if o in out {
      OnlyOne(order, i, o, out[o]);
    }
    forall j | ScopeOf(order, i, j) ensures o in out && out[o] == order[j] {
      assert ScopedVar(order, i, j, o);
      var k :| ScopeOf(order, i, k) && order[k] == out[o];
      ScopeUnique(order, i, j, k);
    }
  }

  lemma VariableFiled<Key, Rid>(n: Naming<Key, Rid>, order: seq<Die>, i: nat)
    requires DistinctVariables(order) && i < |order| && Variable(order, i)
    ensures Filed(n, order, Built(n, ScopesUpTo(order, |order|), order), i)
  {
    var scopes := ScopesUpTo(order, |order|);
    DistinctAlike(order);
    ScopesExactly(order);
    OwnScope(order, i, scopes);
    RecordsPartition(n, scopes, order, i, RidOf(n, scopes, order[i]));
  }

  /** With distinct offsets every variable is filed, and nothing else is in the offset table. */
  lemma BuiltExactly<Key, Rid>(n: Naming<Key, Rid>, order: seq<Die>)
    ensures var doc := Built(n, ScopesUpTo(order, |order|), order);
            && (forall o :: o in doc.offsets <==> exists i :: Variable(order, i) && order[i].off == o)
            && (DistinctVariables(order) ==> forall i | Variable(order, i) :: Filed(n, order, doc, i))
  {
    var scopes := ScopesUpTo(order, |order|);
    var doc := Built(n, scopes, order);
    forall o ensures o in doc.offsets <==> exists i :: Variable(order, i) && order[i].off == o {
      OffsetsExact(n, scopes, order, o);
      assert forall i :: VarAt(order, i, o) <==> Variable(order, i) && order[i].off == o;
    }
    if DistinctVariables(order) {
      forall i | Variable(order, i) ensures Filed(n, order, doc, i) {
        VariableFiled(n, order, i);
      }
    }
  }

  // ----- validation -----

  /** No variable entry is absent, and each with a proper record id is in the list of that record. */
  ghost predicate Passes<Key, Rid>(doc: Doc<Key, Rid>, order: seq<Die>, empty: Rid -> bool) {
    forall i | 0 <= i < |order| && IsVar(order[i]) ::
      && order[i].off in doc.offsets
      && (!empty(doc.offsets[order[i].off]) ==> Listed(doc, order[i].off))
  }

  ghost predicate Listed<Key, Rid>(doc: Doc<Key, Rid>, off: Offset)
    requires off in doc.offsets
  {
    doc.offsets[off] in doc.records && off in doc.records[doc.offsets[off]].dies
  }

  /**
   The first two checks of `validate`; an entry whose record id is empty, as none that `record_id` makes,
   is not looked up, and a table naming an unknown record otherwise is a key error there.
   */
  method Validate<Key, Rid(==)>(doc: Doc<Key, Rid>, order: seq<Die>, empty: Rid -> bool)
    returns (missing: seq<Offset>, stray: Option<Offset>)
    requires forall o | o in doc.offsets && !empty(doc.offsets[o]) :: doc.offsets[o] in doc.records
    ensures missing == [] && stray == None <==> Passes(doc, order, empty)
  {
    missing, stray := [], None;
    for i := 0 to |order|
      invariant missing == [] <==> forall k | 0 <= k < i && IsVar(order[k]) :: order[k].off in doc.offsets
    {
      if IsVar(order[i]) && order[i].off !in doc.offsets {
        missing := missing + [order[i].off];
      }
    }
    for i := 0 to |order|
      invariant stray == None
      invariant forall k | 0 <= k < i && IsVar(order[k]) && order[k].off in doc.offsets && !empty(doc.offsets[order[k].off]) ::
                  Listed(doc, order[k].off)
    {
      var off := order[i].off;
      if IsVar(order[i]) && off in doc.offsets && !empty(doc.offsets[off]) && off !in doc.records[doc.offsets[off]].dies {
        stray := Some(off);
        break;
      }
    }
  }

  /** A built map lists every entry, whatever the record ids and even if offsets repeat, and so always passes. */
  lemma BuiltPasses<Key, Rid>(n: Naming<Key, Rid>, scopes: map<Offset, Die>, order: seq<Die>, empty: Rid -> bool)
    ensures Passes(Built(n, scopes, order), order, empty)
    ensures forall i | 0 <= i < |order| && IsVar(order[i]) ::
              order[i].off in Built(n, scopes, order).offsets && Listed(Built(n, scopes, order), order[i].off)
  {
    var doc := Built(n, scopes, order);
    forall i | 0 <= i < |order| && IsVar(order[i])
      ensures order[i].off in doc.offsets && Listed(doc, order[i].off)
    {
      var o := order[i].off;
      assert VarAt(order, i, o);
      OffsetsExact(n, scopes, order, o);
      MemberIff(n, scopes, order, doc.offsets[o], o);
      RecordsExact(n, scopes, order, doc.offsets[o]);
    }
  }

  // ----- a partition -----

  ghost predicate DistinctOffsets(order: seq<Die>) {
    forall i, j | 0 <= i < j < |order| && IsVar(order[i]) && IsVar(order[j]) :: order[i].off != order[j].off
  }

  lemma LastIsNew<Key, Rid>(n: Naming<Key, Rid>, scopes: map<Offset, Die>, order: seq<Die>, r: Rid)
    requires DistinctOffsets(order) && order != [] && IsVar(order[|order| - 1])
    ensures order[|order| - 1].off !in Members(n, scopes, order[..|order| - 1], r)
  {
    var most, last := order[..|order| - 1], |order| - 1;
    MemberIff(n, scopes, most, r, order[last].off);
    forall i ensures !VarAt(most, i, order[last].off) {
      assert 0 <= i < last ==> most[i] == order[i];
    }
  }

  ghost predicate AllDifferent(m: seq<Offset>) {
    forall a, b | 0 <= a < b < |m| :: m[a] != m[b]
  }

  lemma MoreDifferent(m: seq<Offset>, o: Offset)
    requires AllDifferent(m) && o !in m
    ensures AllDifferent(m + [o])
  {
  }

  lemma {:induction false} MembersDistinct<Key, Rid>(n: Naming<Key, Rid>, scopes: map<Offset, Die>, order: seq<Die>, r: Rid)
    requires DistinctOffsets(order)
    ensures AllDifferent(Members(n, scopes, order, r))
  {
    if order != [] {
      var most, d := order[..|order| - 1], order[|order| - 1];
      var before := Members(n, scopes, most, r);
      MembersDistinct(n, scopes, most, r);
      if IsVar(d) && RidOf(n, scopes, d) == r {
        LastIsNew(n, scopes, order, r);
        MoreDifferent(before, d.off);
        assert Members(n, scopes, order, r) == before + [d.off];
      } else {
        assert Members(n, scopes, order, r) == before;
      }
    }
  }

  /**
   With distinct offsets the records partition the variable entries: each entry is in the list of its
   own record id, in no other, and once.
   */
  lemma RecordsPartition<Key, Rid>(n: Naming<Key, Rid>, scopes: map<Offset, Die>, order: seq<Die>, i: nat, r: Rid)
    requires DistinctOffsets(order) && i < |order| && IsVar(order[i])
    ensures var doc := Built(n, scopes, order);
            && (r in doc.records && order[i].off in doc.records[r].dies <==> r == RidOf(n, scopes, order[i]))
            && order[i].off in doc.offsets && doc.offsets[order[i].off] == RidOf(n, scopes, order[i])
            && (r in doc.records ==> AllDifferent(doc.records[r].dies))
  {
    var o := order[i].off;
    assert VarAt(order, i, o);
    RecordsExact(n, scopes, order, r);
    MemberIff(n, scopes, order, r, o);
    OffsetsExact(n, scopes, order, o);
    MembersDistinct(n, scopes, order, r);
    forall j | VarAt(order, j, o) ensures j == i {
    }
  }

  // ----- keys -----

  /** No two variable entries with different keys share a record id. */
  ghost predicate NoCollision<Key, Rid>(n: Naming<Key, Rid>, scopes: map<Offset, Die>, order: seq<Die>) {
    forall i, j | 0 <= i < |order| && 0 <= j < |order| && IsVar(order[i]) && IsVar(order[j]) ::
      RidOf(n, scopes, order[i]) == RidOf(n, scopes, order[j]) ==> KeyOf(n, scopes, order[i]) == KeyOf(n, scopes, order[j])
  }

  ghost predicate KeysRight<Key, Rid>(n: Naming<Key, Rid>, scopes: map<Offset, Die>, order: seq<Die>) {
    var doc := Built(n, scopes, order);
    forall i | 0 <= i < |order| && IsVar(order[i]) ::
      RidOf(n, scopes, order[i]) in doc.records
      && doc.records[RidOf(n, scopes, order[i])].key == KeyOf(n, scopes, order[i])
  }

  /** A record has the key of the first entry with its id, whatever the keys of later ones. */
  lemma {:induction false} FirstKeyKept<Key, Rid>(n: Naming<Key, Rid>, scopes: map<Offset, Die>, order: seq<Die>, r: Rid)
    returns (i: nat)
    requires r in Built(n, scopes, order).records
    ensures i < |order| && IsVar(order[i]) && RidOf(n, scopes, order[i]) == r
    ensures forall j | 0 <= j < i :: IsVar(order[j]) ==> RidOf(n, scopes, order[j]) != r
    ensures Built(n, scopes, order).records[r].key == KeyOf(n, scopes, order[i])
  {
    var most := order[..|order| - 1];
    if r in Built(n, scopes, most).records {
      i := FirstKeyKept(n, scopes, most, r);
      assert forall j | 0 <= j < i :: order[j] == most[j];
    } else {
      i := |order| - 1;
      forall j | 0 <= j < i && IsVar(order[j]) ensures RidOf(n, scopes, order[j]) != r {
        assert most[j] == order[j];
        IdHasRecord(n, scopes, most, j);
      }
    }
  }

  lemma IdHasRecord<Key, Rid>(n: Naming<Key, Rid>, scopes: map<Offset, Die>, order: seq<Die>, i: nat)
    requires i < |order| && IsVar(order[i])
    ensures RidOf(n, scopes, order[i]) in Built(n, scopes, order).records
  {
    var r := RidOf(n, scopes, order[i]);
    RecordsExact(n, scopes, order, r);
    MemberIff(n, scopes, order, r, order[i].off);
    assert VarAt(order, i, order[i].off);
  }

  /** Entries with the same id are listed in the order in which they come. */
  lemma {:induction false} ListedInOrder<Key, Rid>(n: Naming<Key, Rid>, scopes: map<Offset, Die>, order: seq<Die>, i: nat, j: nat)
    returns (a: nat, b: nat)
    requires i < j < |order| && IsVar(order[i]) && IsVar(order[j])
    requires RidOf(n, scopes, order[i]) == RidOf(n, scopes, order[j])
    ensures RidOf(n, scopes, order[i]) in Built(n, scopes, order).records
    ensures var dies := Built(n, scopes, order).records[RidOf(n, scopes, order[i])].dies;
            a < b < |dies| && dies[a] == order[i].off && dies[b] == order[j].off
  {
    var r, most := RidOf(n, scopes, order[i]), order[..|order| - 1];
    IdHasRecord(n, scopes, order, i);
    IdHasRecord(n, scopes, most, i);
    var was, dies := Built(n, scopes, most).records[r].dies, Built(n, scopes, order).records[r].dies;
    if j == |most| {
      RecordsExact(n, scopes, most, r);
      MemberIff(n, scopes, most, r, order[i].off);
      assert VarAt(most, i, order[i].off) && RidOf(n, scopes, most[i]) == r;
      a :| a < |was| && was[a] == order[i].off;
      b := |was|;
      assert dies == was + [order[j].off];
    } else {
      a, b := ListedInOrder(n, scopes, most, i, j);
      assert dies[..|was|] == was;
    }
  }

  /** Every entry is filed under its own key exactly when no two different keys share an id. */
  lemma KeysRightIffNoCollision<Key, Rid>(n: Naming<Key, Rid>, scopes: map<Offset, Die>, order: seq<Die>)
    ensures KeysRight(n, scopes, order) <==> NoCollision(n, scopes, order)
  {
    if NoCollision(n, scopes, order) {
      var doc := Built(n, scopes, order);
      forall i | 0 <= i < |order| && IsVar(order[i])
        ensures RidOf(n, scopes, order[i]) in doc.records
        ensures doc.records[RidOf(n, scopes, order[i])].key == KeyOf(n, scopes, order[i])
      {
        var r := RidOf(n, scopes, order[i]);
        IdHasRecord(n, scopes, order, i);
        var j := FirstKeyKept(n, scopes, order, r);
      }
    }
  }

  // ----- the text a record id is computed from -----

  /** The natural tuple of `record_key`; a field is absent when the attribute is. */
  datatype NaturalKey = NaturalKey(fields: seq<Option<string>>)

  const FIELDS: nat := 5

  const SEPARATOR: char := 31 as char

  /** `str(value)` */
  function Shown(v: Option<string>): string {
    match v
    case None => "None"
    case Some(t) => t
  }

  function Joined(parts: seq<string>): string {
    if parts == [] then ""
    else if |parts| == 1 then parts[0]
    else parts[0] + [SEPARATOR] + Joined(parts[1..])
  }

  function ShownAll(fields: seq<Option<string>>): (r: seq<string>)
    ensures |r| == |fields|
    ensures forall i | 0 <= i < |fields| :: r[i] == Shown(fields[i])
  {
    seq(|fields|, i requires 0 <= i < |fields| => Shown(fields[i]))
  }

  /** The text that is hashed. */
  function Blob(k: NaturalKey): string {
    Joined(ShownAll(k.fields))
  }

  // ----- when two texts are the same, for all keys -----

  /** A character in front: a separator begins a new piece, any other joins the first. */
  function Grown(c: char, pieces: seq<string>): (r: seq<string>)
    requires pieces != []
    ensures r != []
  {
    if c == SEPARATOR then [""] + pieces else [[c] + pieces[0]] + pieces[1..]
  }

  /** The pieces of a text between separators, never none. */
  function Pieces(s: string): (r: seq<string>)
    ensures r != []
  {
    if s == "" then [""] else Grown(s[0], Pieces(s[1..]))
  }

  function AllPieces(parts: seq<string>): seq<string> {
    if parts == [] then [] else Pieces(parts[0]) + AllPieces(parts[1..])
  }

  lemma PiecesCons(c: char, t: string)
    ensures Pieces([c] + t) == Grown(c, Pieces(t))
  {
    assert ([c] + t)[1..] == t;
  }

  lemma GrownAppend(c: char, x: seq<string>, y: seq<string>)
    requires x != []
    ensures Grown(c, x + y) == Grown(c, x) + y
  {
  }

  lemma {:induction false} PiecesOfTwo(a: string, b: string)
    ensures Pieces(a + [SEPARATOR] + b) == Pieces(a) + Pieces(b)
  {
    if a == "" {
      PiecesCons(SEPARATOR, b);
      assert a + [SEPARATOR] + b == [SEPARATOR] + b;
    } else {
      var t := a[1..] + [SEPARATOR] + b;
      PiecesOfTwo(a[1..], b);
      PiecesCons(a[0], t);
      GrownAppend(a[0], Pieces(a[1..]), Pieces(b));
      assert a + [SEPARATOR] + b == [a[0]] + t;
    }
  }

  lemma {:induction false} PiecesOfJoined(parts: seq<string>)
    requires parts != []
    ensures Pieces(Joined(parts)) == AllPieces(parts)
  {
    if |parts| == 1 {
      assert AllPieces(parts) == Pieces(parts[0]) + [];
    } else {
      PiecesOfTwo(parts[0], Joined(parts[1..]));
      PiecesOfJoined(parts[1..]);
    }
  }

  lemma {:induction false} JoinedPieces(s: string)
    ensures Joined(Pieces(s)) == s
  {
    if s != "" {
      var rest := Pieces(s[1..]);
      JoinedPieces(s[1..]);
      assert s == [s[0]] + s[1..];
      if s[0] == SEPARATOR {
        assert ([""] + rest)[1..] == rest;
      } else if |rest| > 1 {
        assert ([[s[0]] + rest[0]] + rest[1..])[1..] == rest[1..];
      }
    }
  }

  /** Two keys give the same text exactly when their printed fields have the same pieces in the same order. */
  lemma BlobsCollideExactly(a: NaturalKey, b: NaturalKey)
    requires |a.fields| == FIELDS == |b.fields|
    ensures Blob(a) == Blob(b) <==> AllPieces(ShownAll(a.fields)) == AllPieces(ShownAll(b.fields))
  {
    PiecesOfJoined(ShownAll(a.fields));
    PiecesOfJoined(ShownAll(b.fields));
    JoinedPieces(Blob(a));
    JoinedPieces(Blob(b));
  }

  // ----- fields without the separator -----

  /** The hashed text, spelled out: the five fields, absent ones as None, with the unit separator between. */
  lemma BlobSpelled(k: NaturalKey)
    requires |k.fields| == 5
    ensures forall i | 0 <= i < 5 :: Shown(k.fields[i]) == match k.fields[i] case None => "None" case Some(t) => t
    ensures var sep, f := [31 as char], ShownAll(k.fields);
            Blob(k) == f[0] + sep + f[1] + sep + f[2] + sep + f[3] + sep + f[4]
  {
    var f := ShownAll(k.fields);
    var sep := [31 as char];
    assert f[3..][1..] == f[4..] && f[2..][1..] == f[3..] && f[1..][1..] == f[2..];
    JoinedOne(f[4..]);
    JoinedCons(f[3..]);
    JoinedCons(f[2..]);
    JoinedCons(f[1..]);
    JoinedCons(f);
    assert Joined(f[3..]) == f[3] + sep + f[4];
    assert Joined(f[2..]) == f[2] + sep + (f[3] + sep + f[4]);
    assert Joined(f[1..]) == f[1] + sep + (f[2] + sep + (f[3] + sep + f[4]));
  }

  lemma JoinedOne(parts: seq<string>)
    requires |parts| == 1
    ensures Joined(parts) == parts[0]
  {
  }

  lemma JoinedCons(parts: seq<string>)
    requires |parts| > 1
    ensures Joined(parts) == parts[0] + [31 as char] + Joined(parts[1..])
  {
  }

  ghost predicate Plain(k: NaturalKey) {
    |k.fields| == FIELDS && forall i | 0 <= i < FIELDS :: SEPARATOR !in Shown(k.fields[i])
  }

  /** Absent and the text None print alike. */
  predicate LooksAlike(a: Option<string>, b: Option<string>) {
    a == b || (a == None && b == Some("None")) || (a == Some("None") && b == None)
  }

  lemma {:induction false} PiecesOfPlain(s: string)
    requires SEPARATOR !in s
    ensures Pieces(s) == [s]
  {
    if s != "" {
      PiecesOfPlain(s[1..]);
      assert s == [s[0]] + s[1..];
    }
  }

  lemma {:induction false} AllPiecesOfPlain(parts: seq<string>)
    requires forall i | 0 <= i < |parts| :: SEPARATOR !in parts[i]
    ensures AllPieces(parts) == parts
  {
    if parts != [] {
      PiecesOfPlain(parts[0]);
      AllPiecesOfPlain(parts[1..]);
    }
  }

  /**
   Two keys without the separator character give the same text exactly when their fields agree up to
   the confusion of an absent attribute with the text None.
   */
  lemma PlainBlobsCollide(a: NaturalKey, b: NaturalKey)
    requires Plain(a) && Plain(b)
    ensures Blob(a) == Blob(b) <==> forall i | 0 <= i < FIELDS :: LooksAlike(a.fields[i], b.fields[i])
  {
    var x, y := ShownAll(a.fields), ShownAll(b.fields);
    BlobsCollideExactly(a, b);
    AllPiecesOfPlain(x);
    AllPiecesOfPlain(y);
    if x == y {
      forall i | 0 <= i < FIELDS ensures LooksAlike(a.fields[i], b.fields[i]) {
        assert x[i] == y[i];
      }
    }
  }

  /** So different keys can share a record id before any hashing: a type named None and no type. */
  lemma AbsentTypeCollides(k: NaturalKey)
    requires |k.fields| == FIELDS
    ensures var a, b := NaturalKey(k.fields[4 := None]), NaturalKey(k.fields[4 := Some("None")]);
            a != b && Blob(a) == Blob(b)
  {
    var a, b := NaturalKey(k.fields[4 := None]), NaturalKey(k.fields[4 := Some("None")]);
    assert a.fields[4] != b.fields[4];
    assert ShownAll(a.fields) == ShownAll(b.fields);
  }
}
