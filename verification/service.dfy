/**
 The operations of the beer stock service, each a single check-then-write
 against the repository, written as a pure function from the repository (and
 the request) to either the written repository and the returned item, or the
 error the service throws.
 */
module BeerService {
  import opened Stock

  /**
   The repository's `findByName`: an id whose item carries `name`. When
   several stored items carry the name the repository throws (a single-result
   query that matched more than one row); this search instead takes the
   earliest in storage order. Under `UniqueNames`, which every operation
   preserves, there is at most one match and the two agree.
   */
  function FindIdByName(order: seq<Id>, items: map<Id, Beer>, name: string): (r: Option<Id>)
    ensures r.Some? ==> r.value in items && items[r.value].name == name && r.value in order
    ensures r.None? ==> forall i :: 0 <= i < |order| && order[i] in items ==> items[order[i]].name != name
    decreases |order|
  {
    if order == [] then None
    else if order[0] in items && items[order[0]].name == name then Some(order[0])
    else
      var r := FindIdByName(order[1..], items, name);
      assert forall i :: 1 <= i < |order| ==> order[i] == order[1..][i - 1];
      r
  }

  /** `verifyIfIsAlreadyRegistered`: fails exactly when some stored item has the name. */
  function VerifyNotRegistered(s: Store, name: string): (r: Outcome)
    requires s.WellFormed()
    ensures r.Fail? <==> HasName(s, name)
    ensures r.Fail? ==> r.error == AlreadyRegistered(name)
  {
    match FindIdByName(s.order, s.items, name)
    case Some(_) => Fail(AlreadyRegistered(name))
    case None => Pass
  }

  /** `verifyIfExists`: the stored item with this id, or `IdNotFound`. */
  function VerifyIfExists(s: Store, id: Id): (r: Result<Beer>)
    requires s.WellFormed()
    ensures r.Ok? <==> id in s.items
    ensures r.Ok? ==> r.value in s.items.Values && r.value.id == id
    ensures r.Err? ==> r.error == IdNotFound(id)
  {
    if id in s.items then Ok(s.items[id]) else Err(IdNotFound(id))
  }

  /**
   `createBeer`: rejects a name that is already stored; otherwise saves the
   item under a fresh id at the end of the storage order and returns it.
   */
  function CreateBeer(s: Store, beer: Beer): (r: Result<Saved>)
    requires s.WellFormed()
    ensures HasName(s, beer.name) ==> r == Err(AlreadyRegistered(beer.name))
    ensures !HasName(s, beer.name) ==> r.Ok?
    ensures r.Ok? ==>
      var id := r.value.beer.id;
      && id !in s.items
      && r.value.beer == beer.(id := id)
      && r.value.store.items == s.items[id := r.value.beer]
      && r.value.store.order == s.order + [id]
      && r.value.store.WellFormed()
  {
    match VerifyNotRegistered(s, beer.name)
    case Fail(e) => Err(e)
    case Pass =>
      var id := s.nextId;
      var saved := beer.(id := id);
      Ok(Saved(Store(s.order + [id], s.items[id := saved], id + 1), saved))
  }

  /** `findByName`: the stored item called `name`, unchanged, or `NameNotFound`. */
  function FindByName(s: Store, name: string): (r: Result<Beer>)
    requires s.WellFormed()
    ensures r.Err? <==> !HasName(s, name)
    ensures r.Err? ==> r.error == NameNotFound(name)
    ensures r.Ok? ==> r.value.name == name && r.value.id in s.items && s.items[r.value.id] == r.value
    ensures r.Ok? && s.UniqueNames() ==>
      forall k :: k in s.items && s.items[k].name == name ==> s.items[k] == r.value
  {
    match FindIdByName(s.order, s.items, name)
    case Some(id) => Ok(s.items[id])
    case None => Err(NameNotFound(name))
  }

  /** The items of `order`, one per id and in the same order (the mapped `findAll` stream). */
  function Collect(order: seq<Id>, items: map<Id, Beer>): (r: seq<Beer>)
    requires forall i :: 0 <= i < |order| ==> order[i] in items
    ensures |r| == |order|
    ensures forall i :: 0 <= i < |r| ==> r[i] == items[order[i]]
    decreases |order|
  {
    if order == [] then []
    else [items[order[0]]] + Collect(order[1..], items)
  }

  /**
   `listAll`: exactly one entry per stored item, in storage order, and so an
   empty list for an empty repository.
   */
  function ListAll(s: Store): (r: seq<Beer>)
    requires s.WellFormed()
    ensures |r| == |s.items| == |s.order|
    ensures forall i :: 0 <= i < |r| ==> r[i] == s.items[s.order[i]]
    ensures forall k :: k in s.items ==> s.items[k] in r
    ensures forall b :: b in r ==> b in s.items.Values
  {
    DistinctEnumerationSize(s.order, s.items.Keys);
    var r := Collect(s.order, s.items);
    assert forall k :: k in s.items ==> s.items[k] in r by {
      forall k | k in s.items
        ensures s.items[k] in r
      {
        var i :| 0 <= i < |s.order| && s.order[i] == k;
        assert r[i] == s.items[k];
      }
    }
    r
  }

  /** `order` with every occurrence of `id` removed, the rest in the same order. */
  function Without(order: seq<Id>, id: Id): (r: seq<Id>)
    ensures forall x :: x in r <==> x in order && x != id
    ensures Distinct(order) ==> Distinct(r)
    decreases |order|
  {
    if order == [] then []
    else if order[0] == id then Without(order[1..], id)
    else
      var rest := Without(order[1..], id);
      ConsDistinct(order, rest);
      [order[0]] + rest
  }

  /** Putting the head of a duplicate-free sequence before a selection of its tail keeps it duplicate-free. */
  lemma ConsDistinct(order: seq<Id>, rest: seq<Id>)
    requires order != []
    requires Distinct(order[1..]) ==> Distinct(rest)
    requires forall x :: x in rest ==> x in order[1..]
    ensures Distinct(order) ==> Distinct([order[0]] + rest)
  {
    if Distinct(order) {
      assert forall i :: 0 <= i < |order[1..]| ==> order[1..][i] == order[i + 1];
      assert order[0] !in order[1..];
      assert forall i :: 0 <= i < |rest| ==> rest[i] != order[0];
    }
  }

  /** `deleteById`: `IdNotFound` for an absent id; otherwise exactly that id is removed. */
  function DeleteById(s: Store, id: Id): (r: Result<Store>)
    requires s.WellFormed()
    ensures id !in s.items ==> r == Err(IdNotFound(id))
    ensures id in s.items ==> r.Ok?
    ensures r.Ok? ==>
      && r.value.items.Keys == s.items.Keys - {id}
      && (forall k :: k in r.value.items ==> r.value.items[k] == s.items[k])
      && r.value.WellFormed()
  {
    match VerifyIfExists(s, id)
    case Err(e) => Err(e)
    case Ok(_) =>
      var order := Without(s.order, id);
      var items := s.items - {id};
      assert forall i :: 0 <= i < |order| ==> order[i] in items by {
        assert forall i :: 0 <= i < |order| ==> order[i] in order;
      }
      Ok(Store(order, items, s.nextId))
  }

  /**
   `increment`: when `quantity + amount <= max` the quantity becomes
   `quantity + amount` and nothing else changes; otherwise `StockExceeded`.
   The sum is the exact one; see the overflow module for the service's 32-bit sum.
   */
  function Increment(s: Store, id: Id, amount: int): (r: Result<Saved>)
    requires s.WellFormed()
    ensures id !in s.items ==> r == Err(IdNotFound(id))
    ensures id in s.items && s.items[id].quantity + amount > s.items[id].max ==>
      r == Err(StockExceeded(id, amount))
    ensures id in s.items && s.items[id].quantity + amount <= s.items[id].max ==> r.Ok?
    ensures r.Ok? ==>
      && id in s.items
      && r.value.beer == s.items[id].(quantity := s.items[id].quantity + amount)
      && r.value.store == s.(items := s.items[id := r.value.beer])
      && r.value.beer.quantity <= r.value.beer.max
  {
    match VerifyIfExists(s, id)
    case Err(e) => Err(e)
    case Ok(beer) =>
      var total := amount + beer.quantity;
      if total <= beer.max then
        var updated := beer.(quantity := total);
        Ok(Saved(s.(items := s.items[id := updated]), updated))
      else
        Err(StockExceeded(id, amount))
  }

  /**
   `decrement`: when `quantity - amount >= 0` the quantity becomes
   `quantity - amount` and nothing else changes; otherwise `BelowZero`.
   */
  function Decrement(s: Store, id: Id, amount: int): (r: Result<Saved>)
    requires s.WellFormed()
    ensures id !in s.items ==> r == Err(IdNotFound(id))
    ensures id in s.items && s.items[id].quantity - amount < 0 ==>
      r == Err(BelowZero(id, amount))
    ensures id in s.items && s.items[id].quantity - amount >= 0 ==> r.Ok?
    ensures r.Ok? ==>
      && id in s.items
      && r.value.beer == s.items[id].(quantity := s.items[id].quantity - amount)
      && r.value.store == s.(items := s.items[id := r.value.beer])
      && r.value.beer.quantity >= 0
  {
    match VerifyIfExists(s, id)
    case Err(e) => Err(e)
    case Ok(beer) =>
      var remaining := beer.quantity - amount;
      if remaining >= 0 then
        var updated := beer.(quantity := remaining);
        Ok(Saved(s.(items := s.items[id := updated]), updated))
      else
        Err(BelowZero(id, amount))
  }
}
