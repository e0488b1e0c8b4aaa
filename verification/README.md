# Beer stock ledger

A model of the `BeerService` of the beerstock API: a ledger of named beers,
each with a capacity `max` and a current `quantity`, kept in a repository keyed
by id. The service registers a beer (refusing a duplicate name), looks one up
by name, lists them all, deletes one by id, and moves a beer's quantity up or
down, refusing a move that would exceed the capacity or go below zero.

- `stock.dfy` (module `Stock`): the `Beer` record, the repository `Store`
  (a map from id to beer, an order in which `findAll` reports the ids, and the
  identity counter fresh ids come from), the error outcomes, and the ledger invariants
  `WellFormed` (the repository is consistent), `UniqueNames` and `Bounded`
  (`0 <= quantity <= max` for every stored beer).
- `service.dfy` (module `BeerService`): one pure function per service
  operation, returning either the written repository with the returned beer,
  or the error the service throws.
- `invariants.dfy` (module `StockInvariants`): the invariants each operation
  preserves, the inverse pairs increment/decrement and delete/lookup, and the
  listing after a registration.
- `overflow.dfy` (module `JavaIntArithmetic`): `increment` and `decrement`
  with Java's 32-bit `int` arithmetic, as the code is written (see Findings),
  and where they agree with the exact operations.

Where the code is looser than its evident intent, the model follows the code:

- `createBeer` does not check `0 <= quantity <= max` of the new beer; the
  service saves whatever the caller sends. `CreateBeer` accepts any beer, and
  the invariant lemma for it assumes an in-bounds beer (that validation, if
  any, sits in the web layer, which is not part of this model).
- Neither `increment` nor `decrement` rejects a negative amount. The
  operations accept any amount; the invariant lemmas require a non-negative
  one, and `NegativeIncrementBreaksBound` shows that the requirement is needed.
- The exceeded-capacity error is `StockExceeded`, after the service's
  exception class.
- `findAll` promises no order. The model fixes one, `Store.order`: a
  registration appends, a delete keeps the others in place.

The mapping between the transfer object and the entity is the identity: both
are `Beer`. A registered beer keeps every field the caller gave except its id,
which the repository assigns from its counter (`nextId`), so it is never an id
already stored.

## Model

| member | source | states |
|---|---|---|
| BeerService.FindIdByName | beerstock-API/src/main/java/com/github/jmarq76/beerstockAPI/repository/BeerRepository.java:10 | the repository's name search finds a stored id carrying the name, and finds nothing only when no stored beer carries it |
| BeerService.VerifyNotRegistered | beerstock-API/src/main/java/com/github/jmarq76/beerstockAPI/service/BeerService.java:56-61 | the duplicate check fails with `AlreadyRegistered(name)` exactly when some stored beer has that name, and depends on nothing else |
| BeerService.VerifyIfExists | beerstock-API/src/main/java/com/github/jmarq76/beerstockAPI/service/BeerService.java:51-54 | the id check succeeds exactly for a stored id, returning the stored beer with that id; otherwise `IdNotFound(id)` |
| BeerService.CreateBeer | beerstock-API/src/main/java/com/github/jmarq76/beerstockAPI/service/BeerService.java:26-31 | a stored name fails with `AlreadyRegistered`; a new name is saved under a fresh id, returned with every other field (name, quantity, max, ...) as given, appended to the storage order, and nothing already stored changes |
| BeerService.FindByName | beerstock-API/src/main/java/com/github/jmarq76/beerstockAPI/service/BeerService.java:33-37 | fails with `NameNotFound` exactly when no stored beer has the name; otherwise returns the stored beer with that name unchanged, the only one when names are unique |
| BeerService.ListAll | beerstock-API/src/main/java/com/github/jmarq76/beerstockAPI/service/BeerService.java:39-44 | the list has one entry per stored beer, in storage order, contains every stored beer and nothing else, and is empty for an empty repository |
| BeerService.DeleteById | beerstock-API/src/main/java/com/github/jmarq76/beerstockAPI/service/BeerService.java:46-49 | an absent id fails with `IdNotFound`; a present id is removed and every other beer stays as it was |
| BeerService.Increment | beerstock-API/src/main/java/com/github/jmarq76/beerstockAPI/service/BeerService.java:63-73 | an absent id fails with `IdNotFound`; if `quantity + amount <= max` the beer's quantity becomes `quantity + amount`, no other field or beer changes, and the result stays within capacity; otherwise `StockExceeded(id, amount)` |
| BeerService.Decrement | beerstock-API/src/main/java/com/github/jmarq76/beerstockAPI/service/BeerService.java:75-85 | an absent id fails with `IdNotFound`; if `quantity - amount >= 0` the quantity becomes `quantity - amount`, no other field or beer changes, and the result is not negative; otherwise `BelowZero(id, amount)` |
| StockInvariants.CreateBeerPreservesValid | beerstock-API/src/main/java/com/github/jmarq76/beerstockAPI/service/BeerService.java:26-31 | registering an in-bounds beer keeps the repository consistent, names unique and every quantity within `[0, max]` |
| StockInvariants.CreateBeerAppendsToListing | beerstock-API/src/main/java/com/github/jmarq76/beerstockAPI/service/BeerService.java:26-44 | after a registration the listing is the previous listing followed by the saved beer |
| StockInvariants.CreateAllLists | beerstock-API/src/main/java/com/github/jmarq76/beerstockAPI/service/BeerService.java:26-44 | registering beers with distinct names, none already stored, one after another: every registration succeeds and the repository grows by exactly one beer per registration |
| StockInvariants.CreateAllFromEmpty | beerstock-API/src/main/java/com/github/jmarq76/beerstockAPI/service/BeerService.java:26-44 | from the empty repository, N registrations with distinct names all succeed and the listing then has exactly N beers |
| StockInvariants.DeleteByIdPreservesValid | beerstock-API/src/main/java/com/github/jmarq76/beerstockAPI/service/BeerService.java:46-49 | deleting keeps the repository consistent, names unique and every quantity within `[0, max]` |
| StockInvariants.DeleteThenLookupFails | beerstock-API/src/main/java/com/github/jmarq76/beerstockAPI/service/BeerService.java:46-54 | after deleting an id, looking it up fails with `IdNotFound`, its name is no longer found, and that name can be registered again |
| StockInvariants.IncrementPreservesValid | beerstock-API/src/main/java/com/github/jmarq76/beerstockAPI/service/BeerService.java:63-73 | with a non-negative amount, a successful increment keeps every quantity within `[0, max]` and names unique; a failed one writes nothing |
| StockInvariants.DecrementPreservesValid | beerstock-API/src/main/java/com/github/jmarq76/beerstockAPI/service/BeerService.java:75-85 | with a non-negative amount, a successful decrement keeps every quantity within `[0, max]` and names unique; a failed one writes nothing |
| StockInvariants.IncrementThenDecrement | beerstock-API/src/main/java/com/github/jmarq76/beerstockAPI/service/BeerService.java:63-85 | decrementing by the amount just added succeeds and restores the original repository and beer |
| StockInvariants.DecrementThenIncrement | beerstock-API/src/main/java/com/github/jmarq76/beerstockAPI/service/BeerService.java:63-85 | incrementing by the amount just removed succeeds and restores the original repository and beer |
| StockInvariants.NegativeIncrementBreaksBound | beerstock-API/src/main/java/com/github/jmarq76/beerstockAPI/service/BeerService.java:63-67 | the service accepts a negative increment that stores a negative quantity, so the invariant needs non-negative amounts |
| StockInvariants.ServiceTestScenario | beerstock-API/src/test/java/com/github/jmarq76/beerstockAPI/service/BeerServiceTest.java:148-178 | from a beer holding 10 of 50 (standing in for the builder's values), +10 gives 20 and -10 gives 0, both below the capacity |
| StockInvariants.CapacityRefusals | beerstock-API/src/main/java/com/github/jmarq76/beerstockAPI/service/BeerService.java:63-85 | from 20 of capacity 50, +40 is refused with `StockExceeded`, -25 with `BelowZero`, and -20 gives 0 |
| StockInvariants.EmptyRepository | beerstock-API/src/test/java/com/github/jmarq76/beerstockAPI/service/BeerServiceTest.java:119-129 | an empty repository lists nothing and fails every name lookup with `NameNotFound` |
| JavaIntArithmetic.JavaAdd | beerstock-API/src/main/java/com/github/jmarq76/beerstockAPI/service/BeerService.java:65 | Java `int` addition always yields an `int`, equals the exact sum when that fits, and is off by 2^32 when it does not |
| JavaIntArithmetic.IncrementAsWritten | beerstock-API/src/main/java/com/github/jmarq76/beerstockAPI/service/BeerService.java:63-73 | the 32-bit increment succeeds exactly when the wrapped sum is at most `max`, stores that wrapped sum, otherwise fails with `StockExceeded`, and agrees with the exact `Increment` whenever the exact sum fits in an `int` |
| JavaIntArithmetic.JavaSub | beerstock-API/src/main/java/com/github/jmarq76/beerstockAPI/service/BeerService.java:77 | Java `int` subtraction always yields an `int`, equals the exact difference when that fits, and is off by 2^32 when it does not |
| JavaIntArithmetic.DecrementAsWritten | beerstock-API/src/main/java/com/github/jmarq76/beerstockAPI/service/BeerService.java:75-85 | the 32-bit decrement succeeds exactly when the wrapped difference is not negative, stores it, otherwise fails with `BelowZero`, and agrees with the exact `Decrement` whenever the exact difference fits in an `int` |
| JavaIntArithmetic.DecrementAsWrittenWraps | beerstock-API/src/main/java/com/github/jmarq76/beerstockAPI/service/BeerService.java:77-78 | from a stored -2147483639 a decrement by 10 wraps to 2147483647 and is stored where the exact one refuses; a decrement of 10 by -2147483648 wraps negative and is refused where the exact one stores a non-`int` |
| JavaIntArithmetic.DecrementAsWrittenAgreesWhenValid | beerstock-API/src/main/java/com/github/jmarq76/beerstockAPI/service/BeerService.java:75-85 | on a valid ledger with a non-negative `int` amount the 32-bit and exact decrements give the same result |
| JavaIntArithmetic.IncrementAsWrittenOverflows | beerstock-API/src/main/java/com/github/jmarq76/beerstockAPI/service/BeerService.java:65-67 | incrementing a beer holding 10 of 50 by the largest `int` wraps to a negative sum, passes the capacity check and stores a negative quantity, where the exact increment refuses |
| JavaIntArithmetic.AsWrittenAgreesWithinCapacity | beerstock-API/src/main/java/com/github/jmarq76/beerstockAPI/service/BeerService.java:63-73 | for a non-negative amount up to the beer's free capacity the 32-bit and exact increments give the same result |

## Findings

| source | as written | input that shows it | evidently intended | confidence | as-written member | corrected member |
|---|---|---|---|---|---|---|
| beerstock-API/src/main/java/com/github/jmarq76/beerstockAPI/service/BeerService.java:65-66 | `quantityToIncrement + quantity` is a 32-bit `int` sum, so it wraps to a negative value that passes `<= max` | a beer with `max` 50 and `quantity` 10, incremented by 2147483647: the sum wraps to -2147483639 and is stored | refuse with `StockExceeded`, since the exact sum exceeds `max`, keeping `0 <= quantity <= max` | high, not executed | JavaIntArithmetic.IncrementAsWrittenOverflows | BeerService.Increment |

The rest of the model uses the exact `BeerService.Increment`; `JavaIntArithmetic.IncrementAsWritten`
shows where the two part.

## Left out

- Spring wiring (the `@Service` and constructor injection of the repository): framework plumbing; the repository is the explicit `Store` argument.
- The JPA repository itself: modelled as the `Store` value; id generation is a counter, which only matters in that a new id is never one already stored.
- The MapStruct mapper: generated code not visible here; the mapping is the identity.
- The id a caller puts in the transfer object on registration: the model always assigns a fresh id rather than passing the caller's id to `save`.
- Exception messages and the HTTP status of each exception: string formatting and web layer.
- Bean validation of the request body (bounds on `max` and `quantity`): it lives in the web layer, which is not part of this model.
- Concurrent increment/decrement on the same beer (a lost update): the model is sequential.
- BeerService.Increment: uses the exact sum, so it differs from the service once `quantity + amount` leaves the `int` range (the Finding); `JavaIntArithmetic.IncrementAsWritten` models the 32-bit sum.
- BeerService.Decrement: uses the exact difference, so it differs from the service once `quantity - amount` leaves the `int` range, which needs a negative stored quantity or an amount below `quantity - 2147483647`; `JavaIntArithmetic.DecrementAsWritten` models the 32-bit difference, and the two agree on every valid ledger with a non-negative amount.
- BeerService.FindIdByName: with two stored beers sharing a name the repository's single-result `findByName` throws a data-access exception; the model returns the earliest match instead. This cannot happen under `UniqueNames`, which every operation preserves.
- BeerService.FindByName: on a repository with a duplicated name the service throws the repository's exception; the model returns the earliest match as found. This cannot happen under `UniqueNames`, which every operation preserves.
- BeerService.VerifyNotRegistered: on a repository with a duplicated name the service throws the repository's exception rather than the already-registered one; the model reports `AlreadyRegistered`. This cannot happen under `UniqueNames`, which every operation preserves.
- Store.order / BeerService.ListAll: the order of `findAll` is unspecified; the model fixes registration order, and `StockInvariants.CreateBeerAppendsToListing`'s ordering rests on that choice.
- The 64-bit range of ids: ids are unbounded integers; any id a caller passes that is not stored, negative ones included, is not found.
- The beer type enumeration: the entity class is not part of this model, so the type is a string.
- The countries repository: a persistence interface with no logic.
