# A minimal entity-component store, modelled in Dafny

The store (`ecs.dfy`, module `Ecs`) keeps two components, `Health` (a signed
32-bit value) and `Name` (a string). A `World` holds one column per component.
A column is a sequence of optional values with one slot per entity. An entity
has no identifier of its own: entity `i` is slot `i` of every column.

- `World` is a class with the two columns as `seq` fields. A ghost field,
  `created`, records the arguments of every `NewEntity` call. `Valid()` states
  that both columns have the same length and that slot `i` of each column holds
  what the `i`-th call supplied.
- `NewEntity` appends one slot to each column. It keeps the columns equally
  long and leaves every existing slot as it was.
- The query that the driver writes inline is modelled eagerly. `Zip` pairs the
  two columns position by position, stopping at the shorter one as Rust's `zip`
  does. `FilterMap` keeps the values that a closure maps to `Some`.
  `BothPresent` is the closure: it uses `:-` where the Rust code uses `?`.
  `Join` is their composition. `JoinedEntities` gives the entity indices that
  `Join` yields, so lemmas can speak of them.
- `Announce` is the consumer loop without the printing. For each joined entity
  it produces a verdict, either `Perished` or `StillHealthy`.
- `ThreeHeroes` is the driver's run: it creates Icarus, Prometheus and Zeus,
  then joins and announces.

Reading the store is a pure function of the columns, so querying twice without
an intervening `NewEntity` gives the same sequence.

## Model

| member | source | states |
|---|---|---|
| `Ecs.World.constructor` | src/main.rs:58-63 | a new world has two empty columns and no entities, and satisfies the store invariant |
| `Ecs.World.NewEntity` | src/main.rs:67-73 | each column grows by exactly the supplied slot at the new last index and no existing slot changes; equal lengths before mean equal lengths after; the store invariant is preserved, so after k calls both columns have length k and entity i holds the i-th call's arguments |
| `Ecs.FilterMapAtKept` | src/main.rs:21-24 | `filter_map` yields one value per kept position, in order, and each value is exactly the closure's inner `Some` value at that position |
| `Ecs.KeptExactly` | src/main.rs:21-24 | the kept positions are in range and strictly ascending, and a position is kept if and only if the closure returns `Some` there |
| `Ecs.FilterMapNothing` | src/main.rs:21-24 | when the closure returns `None` everywhere, `filter_map` yields nothing |
| `Ecs.JoinCorrect` | src/main.rs:13-24 | the join yields entity i if and only if both its health and its name slots are present; each yielded pair is exactly the two stored inner values; entities come out in strictly ascending index order |
| `Ecs.JoinBounded` | src/main.rs:13-16 | the join has at most as many elements as either column, and so at most the number of entities |
| `Ecs.JoinWithoutHealth` | src/main.rs:21-24 | when no entity has a health, the join is empty; in particular a world with no entities gives an empty join |
| `Ecs.JoinAppend` | src/main.rs:13-24 | creating one more entity keeps the join over the earlier entities unchanged, and appends the new entity's pair exactly when both its slots are present |
| `Ecs.JoinOfCreated` | src/main.rs:70-72 | over a valid world, the join yields exactly the entities whose creating call supplied both components, with the values that call supplied, and no more entities than were created |
| `Ecs.Announce` | src/main.rs:30-35 | one verdict per joined entity, in join order, naming that entity; the verdict is "perished" exactly when its health is below 0, and "still healthy" otherwise, 0 included |
| `Ecs.ThreeHeroes` | src/main.rs:1-38 | after creating (-10, "Icarus"), (100, "Prometheus") and (none, "Zeus"), the join is exactly [(-10, "Icarus"), (100, "Prometheus")] with Zeus left out, and the verdicts are Icarus perished, Prometheus still healthy |

## Left out

- Console output: the `println!` lines and their formatting are not modelled. `Announce` returns the sequence of verdicts in their place.
- Laziness of the iterators: `zip` and `filter_map` are modelled as finite sequences computed at once. The elements and their order are the same.
- Borrowing and lifetimes: `Name` holds its string by value, and the join yields component values rather than references.
- Allocation failure in `Vec::push`: this belongs to the host environment, not to the store.
- `created` is a ghost record of the calls made so far. The Rust `World` has no such field; it serves only to state the invariant.
- The store has only the health-and-name query. The source has no query on a single component or on another combination of components, so none is modelled.
