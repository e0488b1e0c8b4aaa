/**
 The data model of the beer stock ledger: the stored item (the `Beer` entity,
 which is also its transfer object, since the mapping between the two is the
 identity), the repository the service works against, and the error outcomes
 the service reports to its callers.
 */
module Stock {

  /**
   An identifier, a Java `Long`. The repository only assigns positive ones, but
   a caller may ask for any id, and an unknown one is simply not found.
   */
  type Id = int

  /** One stock-tracked item. `max` is its capacity and `quantity` its current stock. */
  datatype Beer = Beer(
    id: Id,
    name: string,
    brand: string,
    max: int,
    quantity: int,
    beerType: string)
  {
    /** The capacity invariant every stored item is meant to keep. */
    predicate InBounds() {
      0 <= quantity <= max
    }
  }

  /** The caller-visible failures, one per exception class of the service. */
  datatype Error =
    | AlreadyRegistered(name: string)
    | NameNotFound(name: string)
    | IdNotFound(id: Id)
    | StockExceeded(id: Id, amount: int)
    | BelowZero(id: Id, amount: int)

  datatype Option<+T> = None | Some(value: T)

  datatype Outcome = Pass | Fail(error: Error)

  datatype Result<+T> = Ok(value: T) | Err(error: Error)

  /**
   The repository. `items` maps each id to its record; `order` is the storage
   order in which `findAll` reports the ids; `nextId` is the identity counter
   the persistence layer draws fresh ids from.
   */
  datatype Store = Store(order: seq<Id>, items: map<Id, Beer>, nextId: nat)
  {
    /** The representation invariant of the repository itself. */
    ghost predicate WellFormed() {
      && (forall i :: 0 <= i < |order| ==> order[i] in items)
      && (forall k :: k in items ==> k in order)
      && Distinct(order)
      && 0 < nextId
      && (forall k :: k in items ==> items[k].id == k && 0 < k < nextId)
    }

    /** No two stored items share a name. */
    ghost predicate UniqueNames() {
      forall a, b :: a in items && b in items && items[a].name == items[b].name ==> a == b
    }

    /** Every stored item satisfies `0 <= quantity <= max`. */
    ghost predicate Bounded() {
      forall k :: k in items ==> items[k].InBounds()
    }

    ghost predicate Valid() {
      WellFormed() && UniqueNames() && Bounded()
    }
  }

  /** The result of a successful write: the repository after `save` and the item it returned. */
  datatype Saved = Saved(store: Store, beer: Beer)

  predicate Distinct(xs: seq<Id>) {
    forall i, j :: 0 <= i < j < |xs| ==> xs[i] != xs[j]
  }

  /** Some stored item carries this name. */
  ghost predicate HasName(s: Store, name: string) {
    exists k :: k in s.items && s.items[k].name == name
  }

  /** An empty repository whose identity counter starts at 1. */
  function EmptyStore(): (s: Store)
    ensures s.Valid()
    ensures s.items == map[] && s.order == []
  {
    Store([], map[], 1)
  }

  /** A duplicate-free sequence that enumerates a set has exactly as many entries as the set. */
  lemma {:induction false} DistinctEnumerationSize(xs: seq<Id>, keys: set<Id>)
    requires Distinct(xs)
    requires forall i :: 0 <= i < |xs| ==> xs[i] in keys
    requires forall k :: k in keys ==> k in xs
    ensures |xs| == |keys|
  {
    if xs == [] {
      assert forall k :: k !in keys;
      assert keys == {};
    } else {
      var x := xs[0];
      var rest := xs[1..];
      assert forall i :: 0 <= i < |rest| ==> rest[i] == xs[i + 1];
      forall k | k in keys - {x}
        ensures k in rest
      {
        assert k in xs;
        var i :| 0 <= i < |xs| && xs[i] == k;
        assert i != 0;
        assert rest[i - 1] == k;
      }
      DistinctEnumerationSize(rest, keys - {x});
    }
  }
}
