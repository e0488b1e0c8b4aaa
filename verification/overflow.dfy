/**
 The service computes `quantityToIncrement + quantity` and
 `quantity - quantityToDecrement` in Java's 32-bit `int`. A large enough
 increment wraps around to a negative sum, passes the `<= max` check and is
 stored. This module models both operations as written, shows the inputs where
 they part from the exact `BeerService.Increment` and `BeerService.Decrement`
 the rest of the model uses, and proves that they agree on every valid ledger
 with a non-negative amount that fits.
 */
module JavaIntArithmetic {
  import opened Stock
  import opened BeerService

  const IntMin: int := -0x8000_0000
  const IntMax: int := 0x7fff_ffff
  const IntRange: int := 0x1_0000_0000

  /** The values a Java `int` can hold. */
  predicate IsJavaInt(x: int) {
    IntMin <= x <= IntMax
  }

  /** Java `int` addition: the exact sum reduced into the 32-bit two's-complement range. */
  function JavaAdd(a: int, b: int): (r: int)
    requires IsJavaInt(a) && IsJavaInt(b)
    ensures IsJavaInt(r)
    ensures IsJavaInt(a + b) ==> r == a + b
    ensures a + b > IntMax ==> r == a + b - IntRange
    ensures a + b < IntMin ==> r == a + b + IntRange
  {
    (a + b - IntMin) % IntRange + IntMin
  }

  /** Java `int` subtraction: the exact difference reduced into the 32-bit two's-complement range. */
  function JavaSub(a: int, b: int): (r: int)
    requires IsJavaInt(a) && IsJavaInt(b)
    ensures IsJavaInt(r)
    ensures IsJavaInt(a - b) ==> r == a - b
    ensures a - b > IntMax ==> r == a - b - IntRange
    ensures a - b < IntMin ==> r == a - b + IntRange
  {
    (a - b - IntMin) % IntRange + IntMin
  }

  /** Every stored quantity fits in a Java `int`, as the entity's field type guarantees. */
  ghost predicate JavaQuantities(s: Store) {
    forall k :: k in s.items ==> IsJavaInt(s.items[k].quantity)
  }

  /** `increment` as written: the sum is a 32-bit `int`, compared with `max` after wrapping. */
  function IncrementAsWritten(s: Store, id: Id, amount: int): (r: Result<Saved>)
    requires s.WellFormed()
    requires JavaQuantities(s)
    requires IsJavaInt(amount)
    ensures id !in s.items ==> r == Err(IdNotFound(id))
    ensures r.Ok? ==>
      && id in s.items
      && r.value.beer == s.items[id].(quantity := JavaAdd(amount, s.items[id].quantity))
      && r.value.store == s.(items := s.items[id := r.value.beer])
    ensures id in s.items ==> (r.Ok? <==> JavaAdd(amount, s.items[id].quantity) <= s.items[id].max)
    ensures id in s.items && r.Err? ==> r.error == StockExceeded(id, amount)
    ensures id in s.items && IsJavaInt(amount + s.items[id].quantity) ==> r == Increment(s, id, amount)
  {
    match VerifyIfExists(s, id)
    case Err(e) => Err(e)
    case Ok(beer) =>
      var total := JavaAdd(amount, beer.quantity);
      if total <= beer.max then
        var updated := beer.(quantity := total);
        Ok(Saved(s.(items := s.items[id := updated]), updated))
      else
        Err(StockExceeded(id, amount))
  }

  /**
   The input that shows the wrap-around: an item with capacity 50 holding 10,
   incremented by the largest `int`. The wrapped sum is negative, so the code
   as written stores a negative quantity, while the exact increment refuses.
   */
  lemma IncrementAsWrittenOverflows()
    ensures
      var s := Store([1], map[1 := Beer(1, "lager", "brand", 50, 10, "LAGER")], 2);
      && s.Valid()
      && IncrementAsWritten(s, 1, IntMax).Ok?
      && IncrementAsWritten(s, 1, IntMax).value.beer.quantity == 10 + IntMax - IntRange
      && !IncrementAsWritten(s, 1, IntMax).value.store.Bounded()
      && Increment(s, 1, IntMax) == Err(StockExceeded(1, IntMax))
  {
  }

  /**
   The two agree on every input whose exact sum fits in an `int`, which is
   every non-negative amount up to the item's free capacity.
   */
  lemma AsWrittenAgreesWithinCapacity(s: Store, id: Id, amount: int)
    requires s.Valid()
    requires JavaQuantities(s)
    requires id in s.items
    requires IsJavaInt(s.items[id].max)
    requires 0 <= amount <= s.items[id].max - s.items[id].quantity
    ensures IncrementAsWritten(s, id, amount) == Increment(s, id, amount)
  {
  }

  /** `decrement` as written: the difference is a 32-bit `int`, compared with 0 after wrapping. */
  function DecrementAsWritten(s: Store, id: Id, amount: int): (r: Result<Saved>)
    requires s.WellFormed()
    requires JavaQuantities(s)
    requires IsJavaInt(amount)
    ensures id !in s.items ==> r == Err(IdNotFound(id))
    ensures id in s.items ==> (r.Ok? <==> JavaSub(s.items[id].quantity, amount) >= 0)
    ensures id in s.items && r.Err? ==> r.error == BelowZero(id, amount)
    ensures r.Ok? ==>
      && id in s.items
      && r.value.beer == s.items[id].(quantity := JavaSub(s.items[id].quantity, amount))
      && r.value.store == s.(items := s.items[id := r.value.beer])
    ensures id in s.items && IsJavaInt(s.items[id].quantity - amount) ==> r == Decrement(s, id, amount)
  {
    match VerifyIfExists(s, id)
    case Err(e) => Err(e)
    case Ok(beer) =>
      var remaining := JavaSub(beer.quantity, amount);
      if remaining >= 0 then
        var updated := beer.(quantity := remaining);
        Ok(Saved(s.(items := s.items[id := updated]), updated))
      else
        Err(BelowZero(id, amount))
  }

  /**
   The inputs where the 32-bit and exact decrements part. From a negative
   stored quantity (the one the overflowing increment leaves) a decrement by
   10 wraps to the largest `int` and is stored, where the exact one refuses;
   and a decrement by the smallest `int` wraps to a negative difference and is
   refused, where the exact one stores a quantity no `int` can hold.
   */
  lemma DecrementAsWrittenWraps()
    ensures
      var s := Store([1], map[1 := Beer(1, "lager", "brand", 50, IntMin + 9, "LAGER")], 2);
      && DecrementAsWritten(s, 1, 10).Ok?
      && DecrementAsWritten(s, 1, 10).value.beer.quantity == IntMax
      && Decrement(s, 1, 10) == Err(BelowZero(1, 10))
    ensures
      var s := Store([1], map[1 := Beer(1, "lager", "brand", 50, 10, "LAGER")], 2);
      && DecrementAsWritten(s, 1, IntMin) == Err(BelowZero(1, IntMin))
      && Decrement(s, 1, IntMin).Ok?
      && !IsJavaInt(Decrement(s, 1, IntMin).value.beer.quantity)
  {
  }

  /**
   On a valid ledger a non-negative `int` amount never makes the difference
   wrap, so there the 32-bit and exact decrements agree.
   */
  lemma DecrementAsWrittenAgreesWhenValid(s: Store, id: Id, amount: int)
    requires s.Valid()
    requires JavaQuantities(s)
    requires 0 <= amount <= IntMax
    ensures DecrementAsWritten(s, id, amount) == Decrement(s, id, amount)
  {
  }
}
