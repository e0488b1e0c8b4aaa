/**
 Properties relating the service operations to each other and to the ledger
 invariant: every stored item keeps `0 <= quantity <= max`, names stay unique,
 and each operation changes only what it names.
 */
module StockInvariants {
  import opened Stock
  import opened BeerService

  /** Registering an in-bounds item under a new name keeps the ledger valid. */
  lemma CreateBeerPreservesValid(s: Store, beer: Beer)
    requires s.Valid()
    requires beer.InBounds()
    ensures CreateBeer(s, beer).Ok? ==> CreateBeer(s, beer).value.store.Valid()
  {
  }

  /** A registration appends exactly the saved item to the listing, after the existing ones. */
  lemma CreateBeerAppendsToListing(s: Store, beer: Beer, saved: Saved)
    requires s.WellFormed()
    requires CreateBeer(s, beer) == Ok(saved)
    ensures ListAll(saved.store) == ListAll(s) + [saved.beer]
  {
  }

  /** Registers each beer in turn, stopping at the first refusal. */
  function CreateAll(s: Store, beers: seq<Beer>): (r: Result<Store>)
    requires s.WellFormed()
    ensures r.Ok? ==> r.value.WellFormed()
    decreases |beers|
  {
    if beers == [] then Ok(s)
    else
      match CreateBeer(s, beers[0])
      case Err(e) => Err(e)
      case Ok(saved) => CreateAll(saved.store, beers[1..])
  }

  /**
   Registering beers with distinct names, none already stored, one after
   another: every registration succeeds and the repository, and so its
   listing, grows by exactly one entry per beer.
   */
  lemma {:induction false} CreateAllLists(s: Store, beers: seq<Beer>)
    requires s.WellFormed()
    requires forall i, j :: 0 <= i < j < |beers| ==> beers[i].name != beers[j].name
    requires forall i :: 0 <= i < |beers| ==> !HasName(s, beers[i].name)
    ensures CreateAll(s, beers).Ok?
    ensures |CreateAll(s, beers).value.items| == |s.items| + |beers|
    decreases |beers|
  {
    if beers != [] {
      var saved := CreateBeer(s, beers[0]).value;
      var rest := beers[1..];
      forall i | 0 <= i < |rest|
        ensures !HasName(saved.store, rest[i].name)
      {
        assert rest[i] == beers[i + 1];
      }
      CreateAllLists(saved.store, rest);
    }
  }

  /** Deleting keeps the ledger valid. */
  lemma DeleteByIdPreservesValid(s: Store, id: Id)
    requires s.Valid()
    ensures DeleteById(s, id).Ok? ==> DeleteById(s, id).value.Valid()
  {
  }

  /**
   After a successful delete, looking the id up fails, the deleted item's name
   is no longer found, and that name may be registered again.
   */
  lemma DeleteThenLookupFails(s: Store, id: Id, beer: Beer)
    requires s.Valid()
    requires DeleteById(s, id).Ok?
    requires beer.name == s.items[id].name
    ensures VerifyIfExists(DeleteById(s, id).value, id) == Err(IdNotFound(id))
    ensures FindByName(DeleteById(s, id).value, s.items[id].name) == Err(NameNotFound(s.items[id].name))
    ensures CreateBeer(DeleteById(s, id).value, beer).Ok?
  {
  }

  /** With a non-negative amount, a successful increment keeps the ledger valid. */
  lemma IncrementPreservesValid(s: Store, id: Id, amount: int)
    requires s.Valid()
    requires amount >= 0
    ensures Increment(s, id, amount).Ok? ==> Increment(s, id, amount).value.store.Valid()
  {
  }

  /** With a non-negative amount, a successful decrement keeps the ledger valid. */
  lemma DecrementPreservesValid(s: Store, id: Id, amount: int)
    requires s.Valid()
    requires amount >= 0
    ensures Decrement(s, id, amount).Ok? ==> Decrement(s, id, amount).value.store.Valid()
  {
  }

  /** Decrementing by the amount just added restores the repository and the item. */
  lemma IncrementThenDecrement(s: Store, id: Id, amount: int)
    requires s.Valid()
    requires Increment(s, id, amount).Ok?
    ensures Decrement(Increment(s, id, amount).value.store, id, amount) == Ok(Saved(s, s.items[id]))
  {
    var s' := Increment(s, id, amount).value.store;
    assert s'.items[id := s.items[id]] == s.items;
  }

  /** Incrementing by the amount just removed restores the repository and the item. */
  lemma DecrementThenIncrement(s: Store, id: Id, amount: int)
    requires s.Valid()
    requires Decrement(s, id, amount).Ok?
    ensures Increment(Decrement(s, id, amount).value.store, id, amount) == Ok(Saved(s, s.items[id]))
  {
    var s' := Decrement(s, id, amount).value.store;
    assert s'.items[id := s.items[id]] == s.items;
  }

  /**
   The non-negative amount is needed: the service accepts a negative increment
   and so can store a negative quantity.
   */
  lemma NegativeIncrementBreaksBound()
    ensures var s := Store([1], map[1 := Beer(1, "lager", "brand", 50, 10, "LAGER")], 2);
      && s.Valid()
      && Increment(s, 1, -20).Ok?
      && !Increment(s, 1, -20).value.store.Bounded()
  {
  }

  /**
   The service tests' increment and decrement, each from the builder's beer.
   The builder's values are not part of this model; capacity 50 holding 10
   stands in for them.
   */
  lemma ServiceTestScenario()
    ensures
      var s0 := Store([1], map[1 := Beer(1, "lager", "brand", 50, 10, "LAGER")], 2);
      && Increment(s0, 1, 10).Ok?
      && Increment(s0, 1, 10).value.beer.quantity == 20 < s0.items[1].max
      && Decrement(s0, 1, 10).Ok?
      && Decrement(s0, 1, 10).value.beer.quantity == 0 < s0.items[1].max
  {
  }

  /**
   From 20 of capacity 50: +40 is refused with `StockExceeded`, -25 with
   `BelowZero`, and -20 empties the stock.
   */
  lemma CapacityRefusals()
    ensures
      var s := Store([1], map[1 := Beer(1, "lager", "brand", 50, 20, "LAGER")], 2);
      && Increment(s, 1, 40) == Err(StockExceeded(1, 40))
      && Decrement(s, 1, 25) == Err(BelowZero(1, 25))
      && Decrement(s, 1, 20).Ok?
      && Decrement(s, 1, 20).value.beer.quantity == 0
  {
  }

  /** An empty repository lists nothing and finds no name. */
  lemma EmptyRepository(name: string)
    ensures ListAll(EmptyStore()) == []
    ensures FindByName(EmptyStore(), name) == Err(NameNotFound(name))
  {
  }

  /** From the empty repository, N registrations with distinct names list N beers. */
  lemma CreateAllFromEmpty(beers: seq<Beer>)
    requires forall i, j :: 0 <= i < j < |beers| ==> beers[i].name != beers[j].name
    ensures CreateAll(EmptyStore(), beers).Ok?
    ensures |ListAll(CreateAll(EmptyStore(), beers).value)| == |beers|
  {
    CreateAllLists(EmptyStore(), beers);
  }
}
