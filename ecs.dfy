/**
 A minimal entity-component store: two index-aligned columns of optional
 components, entity creation by lock-step append, and the query that joins the
 columns position by position and keeps the entities holding both components.
 */
module Ecs {

  /** Rust's `Option`, failure-compatible so that `:-` plays the part of `?`. */
  datatype Option<+T> = None | Some(value: T) {
    predicate IsFailure() { None? }

    function PropagateFailure<U>(): Option<U>
      requires None?
    {
      None
    }

    function Extract(): T
      requires Some?
    {
      value
    }
  }

  /** A signed 32-bit integer, the payload of `Health`. */
  newtype i32 = x: int | -0x8000_0000 <= x < 0x8000_0000

  /** Component: the health of an entity; a negative value means it has perished. */
  datatype Health = Health(value: i32)

  /** Component: the name of an entity. */
  datatype Name = Name(text: string)

  /** One slot per column for the same entity, as handed to `NewEntity`. */
  type Slots = (Option<Health>, Option<Name>)

  // ---------------------------------------------------------------------------
  // Storage
  // ---------------------------------------------------------------------------

  /**
   The store. An entity is an index into both columns; `created` is the
   sequence of arguments of every `NewEntity` call so far, so entity `i` is the
   `i`-th call.
   */
  class World {
    var healthComponents: seq<Option<Health>>
    var nameComponents: seq<Option<Name>>
    ghost var created: seq<Slots>

    /** Both columns always have the same length, and slot `i` of each holds the `i`-th call's argument. */
    ghost predicate Valid()
      reads this
    {
      && |healthComponents| == |nameComponents|
      && |healthComponents| == |created|
      && forall i :: 0 <= i < |created| ==>
           healthComponents[i] == created[i].0 && nameComponents[i] == created[i].1
    }

    /** A world with no entities. */
    constructor ()
      ensures Valid()
      ensures healthComponents == [] && nameComponents == [] && created == []
    {
      healthComponents := [];
      nameComponents := [];
      created := [];
    }

    /** Appends one slot, present or absent, to each column. */
    method NewEntity(health: Option<Health>, name: Option<Name>)
      modifies this
      ensures healthComponents == old(healthComponents) + [health]
      ensures nameComponents == old(nameComponents) + [name]
      ensures created == old(created) + [(health, name)]
      ensures old(|healthComponents| == |nameComponents|) ==> |healthComponents| == |nameComponents|
      ensures old(Valid()) ==> Valid()
    {
      healthComponents := healthComponents + [health];
      nameComponents := nameComponents + [name];
      created := created + [(health, name)];
    }
  }

  // ---------------------------------------------------------------------------
  // Iterator adaptors, evaluated eagerly
  // ---------------------------------------------------------------------------

  /** Pairs up position `i` of both sequences, stopping at the shorter one. */
  function Zip<A, B>(xs: seq<A>, ys: seq<B>): seq<(A, B)>
  {
    var n := if |xs| <= |ys| then |xs| else |ys|;
    seq(n, i requires 0 <= i < n => (xs[i], ys[i]))
  }

  /** The values `f` maps to `Some`, in the order of `xs`. */
  function FilterMap<T, U>(xs: seq<T>, f: T -> Option<U>): seq<U>
  {
    if xs == [] then []
    else
      var last := xs[|xs| - 1];
      FilterMap(xs[..|xs| - 1], f) + (match f(last) case Some(y) => [y] case None => [])
  }

  /** The positions of `xs` that `FilterMap(xs, f)` keeps, in ascending order. */
  function Kept<T, U>(xs: seq<T>, f: T -> Option<U>): seq<nat>
  {
    if xs == [] then []
    else Kept(xs[..|xs| - 1], f) + (if f(xs[|xs| - 1]).Some? then [|xs| - 1] else [])
  }

  /** `FilterMap` yields, one for one, `f`'s value at each kept position. */
  lemma {:induction false} FilterMapAtKept<T, U>(xs: seq<T>, f: T -> Option<U>)
    ensures |FilterMap(xs, f)| == |Kept(xs, f)|
    ensures forall k :: 0 <= k < |Kept(xs, f)| ==>
              Kept(xs, f)[k] < |xs| && f(xs[Kept(xs, f)[k]]) == Some(FilterMap(xs, f)[k])
  {
    if xs != [] {
      var init := xs[..|xs| - 1];
      FilterMapAtKept(init, f);
      forall k | 0 <= k < |Kept(init, f)|
        ensures xs[Kept(init, f)[k]] == init[Kept(init, f)[k]]
      {
      }
    }
  }

  /** The kept positions are strictly ascending, and a position is kept exactly when `f` maps it to `Some`. */
  lemma {:induction false} KeptExactly<T, U>(xs: seq<T>, f: T -> Option<U>)
    ensures |Kept(xs, f)| <= |xs|
    ensures forall k :: 0 <= k < |Kept(xs, f)| ==> Kept(xs, f)[k] < |xs|
    ensures forall j, k :: 0 <= j < k < |Kept(xs, f)| ==> Kept(xs, f)[j] < Kept(xs, f)[k]
    ensures forall i :: 0 <= i < |xs| ==> (i in Kept(xs, f) <==> f(xs[i]).Some?)
  {
    if xs != [] {
      var init := xs[..|xs| - 1];
      KeptExactly(init, f);
      forall i | 0 <= i < |init|
        ensures xs[i] == init[i]
      {
      }
    }
  }

  /** Nothing is kept when `f` maps every element to `None`. */
  lemma {:induction false} FilterMapNothing<T, U>(xs: seq<T>, f: T -> Option<U>)
    requires forall i :: 0 <= i < |xs| ==> f(xs[i]).None?
    ensures FilterMap(xs, f) == []
  {
    if xs != [] {
      FilterMapNothing(xs[..|xs| - 1], f);
    }
  }

  // ---------------------------------------------------------------------------
  // Query: the health-and-name join
  // ---------------------------------------------------------------------------

  /** The `filter_map` closure: both inner values, or `None` as soon as one slot is empty. */
  function BothPresent(slots: Slots): Option<(Health, Name)>
  {
    var health :- slots.0;
    var name :- slots.1;
    Some((health, name))
  }

  /** The components of every entity that has both a health and a name. */
  function Join(health: seq<Option<Health>>, names: seq<Option<Name>>): seq<(Health, Name)>
  {
    FilterMap(Zip(health, names), BothPresent)
  }

  /** The entities (indices) that `Join` yields, in the order it yields them. */
  function JoinedEntities(health: seq<Option<Health>>, names: seq<Option<Name>>): seq<nat>
  {
    Kept(Zip(health, names), BothPresent)
  }

  /**
   The join yields entity `i` if and only if both of its slots are present,
   yields exactly the stored values, and goes in strictly ascending entity order.
   */
  lemma JoinCorrect(health: seq<Option<Health>>, names: seq<Option<Name>>)
    ensures var r, ids := Join(health, names), JoinedEntities(health, names);
      && |r| == |ids|
      && (forall k :: 0 <= k < |ids| ==>
            && ids[k] < |health| && ids[k] < |names|
            && health[ids[k]] == Some(r[k].0)
            && names[ids[k]] == Some(r[k].1))
      && (forall j, k :: 0 <= j < k < |ids| ==> ids[j] < ids[k])
      && (forall i :: 0 <= i < |health| && i < |names| ==>
            (i in ids <==> health[i].Some? && names[i].Some?))
  {
    var zipped := Zip(health, names);
    FilterMapAtKept(zipped, BothPresent);
    KeptExactly(zipped, BothPresent);
  }

  /** The join has at most one element per entity, that is, per position of the zip. */
  lemma JoinBounded(health: seq<Option<Health>>, names: seq<Option<Name>>)
    ensures |Join(health, names)| <= |health| && |Join(health, names)| <= |names|
  {
    var zipped := Zip(health, names);
    FilterMapAtKept(zipped, BothPresent);
    KeptExactly(zipped, BothPresent);
  }

  /** With no entity holding a health, the join is empty; so it is in particular for a world with no entities. */
  lemma {:induction false} JoinWithoutHealth(health: seq<Option<Health>>, names: seq<Option<Name>>)
    requires forall i :: 0 <= i < |health| ==> health[i].None?
    ensures Join(health, names) == []
  {
    var zipped := Zip(health, names);
    FilterMapNothing(zipped, BothPresent);
  }

  /**
   Creating one more entity leaves the join over the existing entities as it
   was and appends the new entity's components when it has both.
   */
  lemma JoinAppend(health: seq<Option<Health>>, names: seq<Option<Name>>, h: Option<Health>, n: Option<Name>)
    requires |health| == |names|
    ensures Join(health + [h], names + [n]) ==
            Join(health, names) + (if h.Some? && n.Some? then [(h.value, n.value)] else [])
  {
    var zipped := Zip(health + [h], names + [n]);
    assert zipped[..|zipped| - 1] == Zip(health, names);
  }

  /**
   Over a world, the join yields exactly the entities whose creating call
   supplied both a health and a name, with the values that call supplied.
   */
  lemma JoinOfCreated(w: World)
    requires w.Valid()
    ensures var r, ids := Join(w.healthComponents, w.nameComponents),
                          JoinedEntities(w.healthComponents, w.nameComponents);
      && |r| == |ids| <= |w.created|
      && (forall k :: 0 <= k < |ids| ==>
            ids[k] < |w.created| && w.created[ids[k]] == (Some(r[k].0), Some(r[k].1)))
      && (forall i :: 0 <= i < |w.created| ==>
            (i in ids <==> w.created[i].0.Some? && w.created[i].1.Some?))
  {
    JoinCorrect(w.healthComponents, w.nameComponents);
    KeptExactly(Zip(w.healthComponents, w.nameComponents), BothPresent);
  }

  // ---------------------------------------------------------------------------
  // Consumer: classification of the joined entities
  // ---------------------------------------------------------------------------

  /** What the consumer reports about one joined entity. */
  datatype Verdict = Perished(name: Name) | StillHealthy(name: Name)

  /**
   Walks the joined entities in order and reports each one as perished when
   its health is below zero and as still healthy otherwise (zero included).
   */
  method Announce(joined: seq<(Health, Name)>) returns (verdicts: seq<Verdict>)
    ensures |verdicts| == |joined|
    ensures forall k :: 0 <= k < |joined| ==>
              verdicts[k].name == joined[k].1 && (verdicts[k].Perished? <==> joined[k].0.value < 0)
  {
    verdicts := [];
    for k := 0 to |joined|
      invariant |verdicts| == k
      invariant forall j :: 0 <= j < k ==>
                  verdicts[j].name == joined[j].1 && (verdicts[j].Perished? <==> joined[j].0.value < 0)
    {
      var (health, name) := joined[k];
      if health.value < 0 {
        verdicts := verdicts + [Perished(name)];
      } else {
        verdicts := verdicts + [StillHealthy(name)];
      }
    }
  }

  // ---------------------------------------------------------------------------
  // Driver
  // ---------------------------------------------------------------------------

  /**
   The program's run: Icarus (health -10), Prometheus (health 100) and Zeus
   (no health) are created; the join yields Icarus then Prometheus, Zeus is left
   out, and Icarus is reported perished and Prometheus still healthy.
   */
  method ThreeHeroes() returns (joined: seq<(Health, Name)>, verdicts: seq<Verdict>)
    ensures joined == [(Health(-10), Name("Icarus")), (Health(100), Name("Prometheus"))]
    ensures verdicts == [Perished(Name("Icarus")), StillHealthy(Name("Prometheus"))]
  {
    var world := new World();
    assert Zip<Option<Health>, Option<Name>>([], []) == [];
    world.NewEntity(Some(Health(-10)), Some(Name("Icarus")));
    JoinAppend([], [], Some(Health(-10)), Some(Name("Icarus")));
    world.NewEntity(Some(Health(100)), Some(Name("Prometheus")));
    JoinAppend([Some(Health(-10))], [Some(Name("Icarus"))], Some(Health(100)), Some(Name("Prometheus")));
    world.NewEntity(None, Some(Name("Zeus")));
    JoinAppend([Some(Health(-10)), Some(Health(100))], [Some(Name("Icarus")), Some(Name("Prometheus"))],
               None, Some(Name("Zeus")));
    assert world.healthComponents == [Some(Health(-10)), Some(Health(100))] + [None];
    assert world.nameComponents == [Some(Name("Icarus")), Some(Name("Prometheus"))] + [Some(Name("Zeus"))];
    joined := Join(world.healthComponents, world.nameComponents);
    verdicts := Announce(joined);
  }
}
