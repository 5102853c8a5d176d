# InMemoryRepository, modelled in Dafny

PromoCodeFactory stores its employees in a generic in-memory repository,
`InMemoryRepository<T>`. It holds one field, `Data`, an ordered collection of
entities keyed by a `Guid` `Id`. It offers five operations:

- `GetAllAsync` lists the contents.
- `GetByIdAsync` returns the first entity with an Id, or null.
- `DeleteByIdAsync` filters an Id out and never fails.
- `InsertItemData` overwrites the item's Id with a new Guid and appends the item.
- `UpdateItemData` faults with `InvalidOperationException("Object with Id … not found")`
  when the Id is absent. Otherwise it filters the Id out and appends the item.

The model has three modules:

- `Wrappers` (`wrappers.dfy`): an `Option` type that stands for a reference that may be null.
- `Guids` (`guids.dfy`): `System.Guid` as a 128-bit number. Its 32 hexadecimal digits
  are the ones `Guid.ToString()` prints. `FormatGuid` is that "D" format
  (`xxxxxxxx-xxxx-xxxx-xxxx-xxxxxxxxxxxx`, lower case). `ParseGuid` reads it back.
- `Repositories` (`in_memory_repository.dfy`): the entity, the store and its properties.
  - An entity is `Entity(id, payload)`. The store reads and writes only the Id, so the rest
    of `T` is an opaque payload of type `P`.
  - The class `InMemoryRepository<P>` keeps `Data` as a field `data: seq<Entity<P>>`.
    `GetAll` and `GetById` are functions that read it. `DeleteById`, `InsertItemData`
    and `UpdateItemData` are methods that reassign it.
  - The LINQ calls are functions on sequences. `FirstOrDefault(x => x.Id == id)` is
    `FirstWithId`. `Where(d => d.Id != id)` is `WithoutId`. `Append` is `+ [item]`.
  - Each mutator's `ensures` gives the new `data` in terms of the old one. Lemmas about the
    sequence functions give what that means: lookups after each operation, order, length,
    idempotence and preservation of distinct Ids.
  - `Scenario` is a client that seeds a store with one employee, updates it, fails to update
    an unknown Id, deletes the employee and sees the store empty. It holds for any two
    distinct Ids and uses only the contracts.

Some consequences of the code that the model makes explicit:

- Update does not replace the stored entity in place. It removes every entry with the Id
  and appends the new item at the end, so the entity moves to the end of the sequence.
- The code does not enforce at most one entity per Id: the constructor takes any seed
  collection. So the model proves that distinct Ids are preserved if they held before. It
  does not assume them.
- Delete removes every entry with the Id. It shrinks the store by the number of entries
  with the Id (`WithoutIdLength`), which is exactly one when the Ids are distinct and the
  Id is present.
- Insert takes whatever `Guid.NewGuid()` returns, so the model does not promise that the
  new Id differs from the caller's old Id.

## Model

| member | source | states |
|---|---|---|
| `Repositories.FirstWithId` | src/PromoCodeFactory.DataAccess/Repositories/InMemoryRepository.cs:25 | `FirstOrDefault` by Id returns nothing exactly when no entry has the Id. Otherwise it returns an entry with that Id, and no earlier entry has that Id. |
| `Repositories.WithoutId` | src/PromoCodeFactory.DataAccess/Repositories/InMemoryRepository.cs:30 | The filter keeps exactly the entries whose Id differs. No entry with the Id remains, the result is no longer than the input, and the input is unchanged when the Id is absent. |
| `Repositories.InMemoryRepository.constructor` | src/PromoCodeFactory.DataAccess/Repositories/InMemoryRepository.cs:13-16 | The store starts with the seed collection exactly as given. |
| `Repositories.InMemoryRepository.GetAll` | src/PromoCodeFactory.DataAccess/Repositories/InMemoryRepository.cs:18-21 | Returns the stored contents unchanged and in stored order. As a function it cannot modify the store. |
| `Repositories.InMemoryRepository.GetById` | src/PromoCodeFactory.DataAccess/Repositories/InMemoryRepository.cs:23-26 | Returns None (null) exactly when no stored entity has the Id. Otherwise it returns the first stored entity with that Id. |
| `Repositories.InMemoryRepository.DeleteById` | src/PromoCodeFactory.DataAccess/Repositories/InMemoryRepository.cs:28-33 | Never fails. Afterwards the Id is not found, and the lookup of every other Id is unchanged. An absent Id leaves the store unchanged. Distinct Ids stay distinct, and with distinct Ids a present Id shrinks the store by one. |
| `Repositories.InMemoryRepository.InsertItemData` | src/PromoCodeFactory.DataAccess/Repositories/InMemoryRepository.cs:35-40 | The item gets the new Id and is appended, so earlier entries are untouched. With a fresh Id, the new Id finds the item and distinct Ids stay distinct. |
| `Repositories.InMemoryRepository.UpdateItemData` | src/PromoCodeFactory.DataAccess/Repositories/InMemoryRepository.cs:42-54 | An absent Id faults with InvalidOperationException("Object with Id <id> not found") and leaves the store unchanged. Otherwise every entry with the Id is removed, the item is appended and the Id finds exactly the item. Distinct Ids stay distinct and the length is kept. |
| `Repositories.WithoutIdAppend` | src/PromoCodeFactory.DataAccess/Repositories/InMemoryRepository.cs:30 | Filtering a concatenation is concatenating the filtered parts, so the kept entries keep their relative order. |
| `Repositories.WithoutIdKeepsOrder` | src/PromoCodeFactory.DataAccess/Repositories/InMemoryRepository.cs:30 | Two kept entries at positions i < j of the old contents stand at positions a < b of the filtered contents: delete keeps the other entities in their relative order. |
| `Repositories.WithoutIdLength` | src/PromoCodeFactory.DataAccess/Repositories/InMemoryRepository.cs:30 | The filter shortens the sequence by exactly the number of entries with the Id. |
| `Repositories.DistinctCountAtMostOne` | src/PromoCodeFactory.DataAccess/Repositories/InMemoryRepository.cs:30 | With distinct Ids, each Id occurs at most once, so the filter removes at most one entry. |
| `Repositories.DeleteShrinksByOne` | src/PromoCodeFactory.DataAccess/Repositories/InMemoryRepository.cs:28-33 | Deleting a present Id from a store with distinct Ids removes exactly one entity. |
| `Repositories.DeleteIdempotent` | src/PromoCodeFactory.DataAccess/Repositories/InMemoryRepository.cs:30 | Deleting an Id twice gives the same state as deleting it once. |
| `Repositories.HasIdWithoutId` | src/PromoCodeFactory.DataAccess/Repositories/InMemoryRepository.cs:30 | After the filter an Id is present exactly when it differs from the deleted Id and was present before. |
| `Repositories.WithoutIdKeepsOthers` | src/PromoCodeFactory.DataAccess/Repositories/InMemoryRepository.cs:25-30 | Deleting one Id does not change what `GetByIdAsync` returns for any other Id. |
| `Repositories.WithoutIdKeepsDistinct` | src/PromoCodeFactory.DataAccess/Repositories/InMemoryRepository.cs:30 | Delete keeps distinct Ids distinct. |
| `Repositories.InsertKeepsDistinct` | src/PromoCodeFactory.DataAccess/Repositories/InMemoryRepository.cs:37-38 | Insert keeps distinct Ids distinct when the generated Id is not already stored. |
| `Repositories.UpdateKeepsDistinct` | src/PromoCodeFactory.DataAccess/Repositories/InMemoryRepository.cs:50-52 | A successful update keeps distinct Ids distinct. |
| `Repositories.UpdateKeepsLength` | src/PromoCodeFactory.DataAccess/Repositories/InMemoryRepository.cs:50-52 | A successful update of a store with distinct Ids leaves the number of entities unchanged. |
| `Repositories.FirstWithIdAppend` | src/PromoCodeFactory.DataAccess/Repositories/InMemoryRepository.cs:25 | A lookup on a concatenation finds the match in the first part if there is one, else in the second part. |
| `Repositories.GetAfterInsert` | src/PromoCodeFactory.DataAccess/Repositories/InMemoryRepository.cs:35-40 | After an insert with a fresh Id, looking up that Id returns the inserted item with its new Id. |
| `Repositories.GetAfterUpdate` | src/PromoCodeFactory.DataAccess/Repositories/InMemoryRepository.cs:50-53 | After a successful update, looking up the Id returns exactly the new item. |
| `Repositories.NotFoundMessage` | src/PromoCodeFactory.DataAccess/Repositories/InMemoryRepository.cs:47 | The message `Object with Id {item.Id} not found` has 61 characters. The Id can be parsed back from the 36 characters starting at position 15, so the message names the missing Id. |
| `Guids.FormatGuid` | src/PromoCodeFactory.DataAccess/Repositories/InMemoryRepository.cs:47 | The Id as the interpolation prints it, in the "D" format of `Guid.ToString()`. The text is well formed and parses back to the same Guid, so distinct Ids give distinct messages. |

## Left out

- LINQ deferred evaluation. In C#, `Data` is a lazy chain of `Where`/`Append` over the seed
  enumerable. The filter in `UpdateItemData` reads `item.Id` only when the chain is enumerated,
  so a caller who later changes that object's Id changes the store. The model keeps `Data` as
  a materialised sequence of immutable values.
- Reference aliasing. Stored items are objects that callers can still mutate, and
  `GetAllAsync` hands out the live enumerable. Here entities are values. `InsertItemData`
  overwrites the caller's `item.Id` in place; the model returns the item with its new Id
  (`stored`) instead.
- `Guid.NewGuid()` is a random, foreign call. `InsertItemData` takes the new Id as the
  argument `newId`. Its freshness is a hypothesis of the properties that need it, because
  GUID uniqueness is only probabilistic.
- The unsynchronised read-modify-write on `Data` when mutators run concurrently. Every
  operation is modelled as atomic.
- The `Task` wrappers (`Task.FromResult`, `Task.CompletedTask`, `Task.FromException`). All
  the work is synchronous. The methods return the value the task carries, and `Outcome`
  stands for a completed or faulted task.
- Null references: a null `item`, or a null element in `Data`, would raise
  `NullReferenceException`. Entities are values here and cannot be null.
- The byte layout of `System.Guid` (its mixed-endian fields). A Guid is modelled by the
  number its printed digits spell.
- The controller in src/PromoCodeFactory.WebHost/Controllers/EmployeesController.cs is not
  part of this model. It does HTTP routing, `ModelState` validation, projection into
  response DTOs and the mapping of exceptions to `BadRequest` or `NotFound`.
- The fields of `Employee` and the declarations of `BaseEntity` and `IRepository<T>` are not
  part of this model. The entity is an Id plus an opaque payload.
