/**
 Reading an attribute of a debug-information entry through its abstract-origin and specification
 links (spikes/mojo-join-map.py:68-89).  One visited set is shared by everything the call explores.
 */
module DieAttributes {
  import opened Common

  type Offset = string

  datatype Die = Die(off: Offset, depth: nat, tag: string, attrs: map<string, string>)

  type Dies = map<Offset, Die>

  /** `_ref`: the offset an attribute value starts with, if it starts with one. */
  type Ref = string -> Option<Offset>

  const ORIGIN := "DW_AT_abstract_origin"
  const SPECIFICATION := "DW_AT_specification"

  /** Every die is stored under its own offset. */
  predicate WellKeyed(dies: Dies) {
    forall o | o in dies :: dies[o].off == o
  }

  /** The die a link attribute leads to, if it is a known one. */
  function Target(ref: Ref, dies: Dies, die: Die, link: string): (t: Option<Offset>)
    ensures t.Some? ==> t.value in dies
  {
    if link !in die.attrs then None
    else
      var t := ref(die.attrs[link]);
      if t.Some? && t.value in dies then t else None
  }

  /** `attr` on a die of the table: the answer and the visited set it leaves behind. */
  function Visit(ref: Ref, dies: Dies, off: Offset, name: string, seen: set<Offset>): (r: (Option<string>, set<Offset>))
    requires off in dies
    ensures seen + {off} <= r.1
    decreases dies.Keys - seen, 2
  {
    if off in seen then (None, seen)
    else
      var die, now := dies[off], seen + {off};
      if name in die.attrs then (Some(die.attrs[name]), now)
      else
        var first := Follow(ref, dies, die, ORIGIN, name, now, seen, off);
        if first.0.Some? then first else Follow(ref, dies, die, SPECIFICATION, name, first.1, seen, off)
  }

  function Follow(ref: Ref, dies: Dies, die: Die, link: string, name: string, seen: set<Offset>,
                  ghost before: set<Offset>, ghost off: Offset): (r: (Option<string>, set<Offset>))
    requires before + {off} <= seen && off in dies && off !in before
    ensures seen <= r.1
    decreases dies.Keys - before, 1
  {
    match Target(ref, dies, die, link)
    case None => (None, seen)
    case Some(t) =>
      assert off in dies.Keys - before && off !in dies.Keys - seen;
      Visit(ref, dies, t, name, seen)
  }

  // ----- the same search without sharing -----

  /**
   The reference: own attribute first, then the abstract origin, then the specification, and a die is
   skipped only when it is already on the way down from the start.
   */
  function Search(ref: Ref, dies: Dies, off: Offset, name: string, above: set<Offset>): Option<string>
    requires off in dies
    decreases dies.Keys - above
  {
    if off in above then None
    else
      var die, now := dies[off], above + {off};
      if name in die.attrs then Some(die.attrs[name])
      else
        var origin, spec := Target(ref, dies, die, ORIGIN), Target(ref, dies, die, SPECIFICATION);
        assert off in dies.Keys - above && off !in dies.Keys - now;
        var first := if origin.Some? then Search(ref, dies, origin.value, name, now) else None;
        if first.Some? then first
        else if spec.Some? then Search(ref, dies, spec.value, name, now) else None
  }

  predicate Linked(ref: Ref, dies: Dies, a: Offset, b: Offset) {
    a in dies && (Target(ref, dies, dies[a], ORIGIN) == Some(b) || Target(ref, dies, dies[a], SPECIFICATION) == Some(b))
  }

  /** Visited dies that are not on the way down carry nothing, and lead only to visited dies. */
  ghost predicate DeadExcept(ref: Ref, dies: Dies, name: string, seen: set<Offset>, above: set<Offset>) {
    forall o | o in seen && o !in above ::
      && o in dies && name !in dies[o].attrs
      && forall b | Linked(ref, dies, o, b) :: b in seen
  }

  /** From a dead die the unshared search finds nothing either. */
  lemma {:induction false} DeadFindsNothing(ref: Ref, dies: Dies, off: Offset, name: string, seen: set<Offset>,
                                            above: set<Offset>, more: set<Offset>)
    requires off in dies && off in seen && DeadExcept(ref, dies, name, seen, above) && above <= more
    ensures Search(ref, dies, off, name, more) == None
    decreases dies.Keys - more
  {
    if off !in more {
      var now := more + {off};
      var origin, spec := Target(ref, dies, dies[off], ORIGIN), Target(ref, dies, dies[off], SPECIFICATION);
      assert off in dies.Keys - more && off !in dies.Keys - now;
      if origin.Some? {
        assert Linked(ref, dies, off, origin.value);
        DeadFindsNothing(ref, dies, origin.value, name, seen, above, now);
      }
      if spec.Some? {
        assert Linked(ref, dies, off, spec.value);
        DeadFindsNothing(ref, dies, spec.value, name, seen, above, now);
      }
    }
  }

  /** Sharing the visited set never changes the answer, whatever cycles the links form. */
  lemma {:induction false} VisitIsSearch(ref: Ref, dies: Dies, off: Offset, name: string, seen: set<Offset>, above: set<Offset>)
    requires off in dies && above <= seen && DeadExcept(ref, dies, name, seen, above)
    ensures Visit(ref, dies, off, name, seen).0 == Search(ref, dies, off, name, above)
    ensures Visit(ref, dies, off, name, seen).0 == None ==>
              DeadExcept(ref, dies, name, Visit(ref, dies, off, name, seen).1, above)
    decreases dies.Keys - seen
  {
    if off in seen {
      if off !in above {
        DeadFindsNothing(ref, dies, off, name, seen, above, above);
      }
      return;
    }
    var die, now, down := dies[off], seen + {off}, above + {off};
    assert off in dies.Keys - seen && off !in dies.Keys - now;
    if name in die.attrs {
      return;
    }
    var origin, spec := Target(ref, dies, die, ORIGIN), Target(ref, dies, die, SPECIFICATION);
    if origin.Some? {
      VisitIsSearch(ref, dies, origin.value, name, now, down);
    }
    var first := Follow(ref, dies, die, ORIGIN, name, now, seen, off);
    if first.0 == None && spec.Some? {
      VisitIsSearch(ref, dies, spec.value, name, first.1, down);
    }
  }

  // ----- found exactly when reachable -----

  ghost predicate IsWalk(ref: Ref, dies: Dies, p: seq<Offset>) {
    p != [] && forall i | 0 <= i < |p| - 1 :: Linked(ref, dies, p[i], p[i + 1])
  }

  ghost predicate Reaches(ref: Ref, dies: Dies, a: Offset, b: Offset) {
    exists p :: IsWalk(ref, dies, p) && p[0] == a && p[|p| - 1] == b
  }

  /** Some die reachable through links, the start included, has this value of the attribute. */
  ghost predicate Carried(ref: Ref, dies: Dies, off: Offset, name: string, value: string) {
    exists b :: Reaches(ref, dies, off, b) && b in dies && name in dies[b].attrs && dies[b].attrs[name] == value
  }

  lemma {:induction false} WalkStaysDead(ref: Ref, dies: Dies, name: string, seen: set<Offset>, p: seq<Offset>)
    requires DeadExcept(ref, dies, name, seen, {}) && IsWalk(ref, dies, p) && p[0] in seen
    ensures p[|p| - 1] in seen
    decreases |p|
  {
    if |p| > 1 {
      var rest := p[1..];
      assert Linked(ref, dies, p[0], p[1]);
      forall i | 0 <= i < |rest| - 1 ensures Linked(ref, dies, rest[i], rest[i + 1]) {
        assert Linked(ref, dies, p[i + 1], p[i + 2]);
      }
      WalkStaysDead(ref, dies, name, seen, rest);
    }
  }

  lemma CarriedThrough(ref: Ref, dies: Dies, a: Offset, b: Offset, name: string, value: string)
    requires Linked(ref, dies, a, b) && Carried(ref, dies, b, name, value)
    ensures Carried(ref, dies, a, name, value)
  {
    var c :| Reaches(ref, dies, b, c) && c in dies && name in dies[c].attrs && dies[c].attrs[name] == value;
    var p :| IsWalk(ref, dies, p) && p[0] == b && p[|p| - 1] == c;
    var q := [a] + p;
    forall i | 0 <= i < |q| - 1 ensures Linked(ref, dies, q[i], q[i + 1]) {
      if i > 0 {
        assert Linked(ref, dies, p[i - 1], p[i]);
      }
    }
    assert IsWalk(ref, dies, q) && q[0] == a && q[|q| - 1] == c;
  }

  lemma {:induction false} SearchFindsCarried(ref: Ref, dies: Dies, off: Offset, name: string, above: set<Offset>)
    requires off in dies
    ensures var r := Search(ref, dies, off, name, above); r.Some? ==> Carried(ref, dies, off, name, r.value)
    decreases dies.Keys - above
  {
    if off !in above {
      var die, now := dies[off], above + {off};
      assert off in dies.Keys - above && off !in dies.Keys - now;
      if name in die.attrs {
        var p := [off];
        assert IsWalk(ref, dies, p) && p[0] == off && p[|p| - 1] == off;
        assert Reaches(ref, dies, off, off);
      } else {
        var origin, spec := Target(ref, dies, die, ORIGIN), Target(ref, dies, die, SPECIFICATION);
        var r := Search(ref, dies, off, name, above);
        if origin.Some? {
          SearchFindsCarried(ref, dies, origin.value, name, now);
          if Search(ref, dies, origin.value, name, now).Some? {
            CarriedThrough(ref, dies, off, origin.value, name, r.value);
            return;
          }
        }
        if spec.Some? && r.Some? {
          SearchFindsCarried(ref, dies, spec.value, name, now);
          CarriedThrough(ref, dies, off, spec.value, name, r.value);
        }
      }
    }
  }

  /** A call with a fresh visited set finds a value exactly when a reachable die carries one. */
  lemma FoundIffReachable(ref: Ref, dies: Dies, off: Offset, name: string)
    requires off in dies
    ensures Visit(ref, dies, off, name, {}).0.Some? <==> exists v :: Carried(ref, dies, off, name, v)
    ensures var r := Visit(ref, dies, off, name, {}).0; r.Some? ==> Carried(ref, dies, off, name, r.value)
  {
    VisitIsSearch(ref, dies, off, name, {}, {});
    SearchFindsCarried(ref, dies, off, name, {});
    var (r, seen) := Visit(ref, dies, off, name, {});
    if r == None {
      forall v | Carried(ref, dies, off, name, v) ensures false {
        var b :| Reaches(ref, dies, off, b) && b in dies && name in dies[b].attrs && dies[b].attrs[name] == v;
        var p :| IsWalk(ref, dies, p) && p[0] == off && p[|p| - 1] == b;
        WalkStaysDead(ref, dies, name, seen, p);
      }
    }
  }

  // ----- the recursive routine -----

  class Visited {
    var offs: set<Offset>

    constructor ()
      ensures offs == {}
    {
      offs := {};
    }
  }

  /** `attr`: one visited set object is handed down and filled by every call; None is no die at all. */
  method Attr(ref: Ref, dies: Dies, start: Option<Die>, name: string, seen: Visited) returns (r: Option<string>)
    requires WellKeyed(dies) && (start.Some? ==> start.value.off in dies && dies[start.value.off] == start.value)
    modifies seen
    ensures start.None? ==> r == None && seen.offs == old(seen.offs)
    ensures start.Some? ==> (r, seen.offs) == Visit(ref, dies, start.value.off, name, old(seen.offs))
    decreases dies.Keys - seen.offs
  {
    if start.None? {
      return None;
    }
    var die := start.value;
    if die.off in seen.offs {
      return None;
    }
    seen.offs := seen.offs + {die.off};
    assert die.off in dies.Keys - old(seen.offs) && die.off !in dies.Keys - seen.offs;
    if name in die.attrs {
      return Some(die.attrs[name]);
    }
    var origin := Target(ref, dies, die, ORIGIN);
    if origin.Some? {
      r := Attr(ref, dies, Some(dies[origin.value]), name, seen);
      if r.Some? {
        return;
      }
    }
    var spec := Target(ref, dies, die, SPECIFICATION);
    if spec.Some? {
      r := Attr(ref, dies, Some(dies[spec.value]), name, seen);
      return;
    }
    r := None;
  }

  // ----- the links and their order, spelled out -----

  /** A die links to another exactly through the value of one of the two attributes, if that is a known offset. */
  lemma LinkedExactly(ref: Ref, dies: Dies, a: Offset, b: Offset)
    ensures Linked(ref, dies, a, b) <==>
              && a in dies && b in dies
              && (|| ("DW_AT_abstract_origin" in dies[a].attrs && ref(dies[a].attrs["DW_AT_abstract_origin"]) == Some(b))
                  || ("DW_AT_specification" in dies[a].attrs && ref(dies[a].attrs["DW_AT_specification"]) == Some(b)))
  {
  }

  /** Entry p[i] leads to p[i + 1] by its abstract origin. */
  predicate OriginChain(ref: Ref, dies: Dies, p: seq<Offset>) {
    && p != [] && (forall i | 0 <= i < |p| :: p[i] in dies) && (forall i, j | 0 <= i < j < |p| :: p[i] != p[j])
    && forall i | 0 <= i < |p| - 1 ::
         "DW_AT_abstract_origin" in dies[p[i]].attrs && ref(dies[p[i]].attrs["DW_AT_abstract_origin"]) == Some(p[i + 1])
  }

  /**
   The abstract origins are followed first, as far as they go: the first die on that chain that carries the
   attribute gives the answer, whatever the specifications on the way hold.
   */
  lemma {:induction false} OriginsFirst(ref: Ref, dies: Dies, p: seq<Offset>, name: string, seen: set<Offset>)
    requires OriginChain(ref, dies, p) && (forall i | 0 <= i < |p| :: p[i] !in seen)
    requires name in dies[p[|p| - 1]].attrs && forall i | 0 <= i < |p| - 1 :: name !in dies[p[i]].attrs
    ensures Visit(ref, dies, p[0], name, seen).0 == Some(dies[p[|p| - 1]].attrs[name])
    decreases |p|
  {
    if |p| > 1 {
      var rest, now := p[1..], seen + {p[0]};
      assert forall i | 0 <= i < |rest| :: rest[i] == p[i + 1];
      OriginsFirst(ref, dies, rest, name, now);
      assert Target(ref, dies, dies[p[0]], ORIGIN) == Some(p[1]);
    }
  }

  /** Without an abstract origin to follow, the specification's answer is the answer. */
  lemma SpecificationNext(ref: Ref, dies: Dies, off: Offset, name: string, next: Offset)
    requires off in dies && next in dies && next != off && name !in dies[off].attrs && name in dies[next].attrs
    requires "DW_AT_specification" in dies[off].attrs && ref(dies[off].attrs["DW_AT_specification"]) == Some(next)
    requires "DW_AT_abstract_origin" !in dies[off].attrs
    ensures Visit(ref, dies, off, name, {}).0 == Some(dies[next].attrs[name])
  {
    var die := dies[off];
    assert Target(ref, dies, die, SPECIFICATION) == Some(next) && Target(ref, dies, die, ORIGIN) == None;
    assert Follow(ref, dies, die, ORIGIN, name, {off}, {}, off) == (None, {off});
    assert Visit(ref, dies, next, name, {off}).0 == Some(dies[next].attrs[name]);
    assert {} + {off} == {off};
  }
}
