# Dog adoption centre: data-access core in Dafny

This project models the core of the DogAdoptionCenter application, an ASP.NET MVC site backed by
Entity Framework Core. It covers:

- the generic `Repository<T>`, an entity table keyed by `Id`. It has four writes, each followed by
  one `SaveChanges`, and two reads that run the pipeline predicate → include → orderBy → selector;
- the four per-entity services (dogs, breeds, adopters, adoption applications). Each delegates to
  one repository and pins the include step its readers need. `DogsService.MarkAsAdopted` is the
  one domain transition;
- the entity records, `Dog`, `Breed`, `Adopter` and `AdoptionApplication`, with their property
  defaults;
- `DogApiDTO`, and the dog.ceo URL handling of `ExternalDogService`: `ParseDto`, the clamp on the
  requested count, and the loop that turns every returned URL into a DTO.

Modules:

| file | module | contents |
|---|---|---|
| `wrappers.dfy` | `Wrappers` | `Option`, `Result` |
| `seqs.dfy` | `Seqs` | LINQ `Where`, `Array.FindIndex`, `FirstOrDefault`, `String.Split`, `String.Join` on sequences, with their lemmas |
| `domain_models.dfy` | `DomainModels` | `Guid`, `Int32`, `DateTime`, the four entity datatypes and their fresh-record defaults |
| `dtos.dfy` | `Dtos` | `DogApiDto` and its defaults |
| `repository.dfy` | `DataAccess` | the query pipeline as functions with its lemmas; class `Repository<T>` |
| `services.dfy` | `Services` | the include steps; classes `DogsService`, `BreedsService`, `AdoptersService`, `AdoptionApplicationsService` |
| `external_dog_service.dfy` | `ExternalDog` | trimming, case-insensitive comparison, `ParseDto` with its round trip, the count clamp, the mapping loop |

Modelling choices:

- **Table and commits.** A repository holds the table as `rows: seq<T>`, and a `key` function
  that reads the `Id`. The order of `rows` is insertion order: `Insert` and `InsertMany` append.
  "Table order" below means this order. The primary-key constraint is the class invariant `Valid()`.
  A ghost counter `commits` counts the `SaveChanges` calls that succeeded.
- **Errors.** The exceptions the code can raise are results of type `Result<_, Failure>`:
  - `DuplicateKey`: an insert whose key is already stored, or a batch that clashes with the
    table or with itself. The whole batch fails; nothing is stored.
  - `ConcurrencyConflict`: an update or delete of an id that is not stored. The command affects
    no row, which EF reports as `DbUpdateConcurrencyException`.
  - `NullArgument`: `DeleteById` of an unknown id. The lookup yields null, and `Remove(null)`
    throws.
  - `NullReference`: `MarkAsAdopted` of an unknown id. The status is set on null.

  A failing operation leaves the table and the commit count unchanged.
- **The read pipeline.** `include` is a function `T -> T` that fills the navigation fields from
  the related table. The service supplies it. Each service holds the repository of that related
  table, which it only reads: in the application the same database context would perform the
  join.
- **Ordering.** `orderBy` is an arbitrary function on sequences. The lemmas that need it require
  it to only rearrange rows. That is the conventional meaning of an ordering, but the parameter
  type (Repository.cs:51) does not enforce it: a caller may pass a function that also filters.
- **Outside inputs.** The clock (`DateTime.UtcNow`) is a parameter. So is `System.Uri`:
  `segmentsOf(url)` stands for `new Uri(url).Segments`, with `None` when the constructor throws.
  The decoded `message` field of the dog.ceo answer is a parameter too. `fetch(n)` stands for
  the decoded `message` array returned by the request for `n` images.
- **Ids.** The services do not assign ids. `Add` stores the id the entity carries; the
  controllers assign fresh ids (DopAdoptipon.Web/Controllers/DogsController.cs:115).
- **Marking an unknown dog.** `MarkAsAdopted` on an unknown id fails on the null record
  (`NullReference`).

## Model

| member | source | states |
|---|---|---|
| DomainModels.NewDog | DopAdoption.Domain/DomainModels/Dog.cs:10-25 | a fresh dog has an empty id, Sex "M", Status "Available", age 0, an empty BreedId, no Breed loaded and no applications; Age is an unconstrained 32-bit int |
| DomainModels.NewBreed | DopAdoption.Domain/DomainModels/Breed.cs:9-13 | a fresh breed has an empty id, Name "" and no dogs |
| DomainModels.NewAdopter | DopAdoption.Domain/DomainModels/Adopter.cs:9-14 | a fresh adopter carries the given FullName and Email, no Phone and no applications |
| DomainModels.NewApplication | DopAdoption.Domain/DomainModels/AdoptionApplication.cs:9-20 | a fresh application has CreatedOn equal to the clock reading passed in, Status "Pending", no Notes, empty DogId and AdopterId, and no Dog or Adopter loaded |
| Dtos.NewDogApiDto | DopAdoption.Domain/DTOs/DogApiDTO.cs:12-25 | a fresh DTO has empty PhotoLink, TypeOfDog and DogVariety, and Source "dog.ceo" |
| DataAccess.IndexOf | DogAdoption.Repository/Repository.cs:56-57 | the position found holds the id and no earlier row does; there is none exactly when no row has the id |
| DataAccess.FindById | DogAdoption.Repository/Repository.cs:56-65 | the row found has the id; there is none exactly when no row has it |
| DataAccess.QueryLength | DogAdoption.Repository/Repository.cs:54-65 | the read pipeline without an ordering yields at most one result per stored row, and exactly one without a predicate |
| DataAccess.QueryAll | DogAdoption.Repository/Repository.cs:74-85 | without predicate or ordering the pipeline projects every stored row, included, in store order |
| DataAccess.QueryYieldsMatchingRows | DogAdoption.Repository/Repository.cs:74-83 | the predicate applies before include and ordering: for any reordering, the results are, as a multiset, the projections of exactly the rows that match |
| DataAccess.QueryFirstIsFirstMatch | DogAdoption.Repository/Repository.cs:54-65 | without ordering, the first result is the projection of the first matching row, and there is none exactly when no row matches |
| DataAccess.QueryById | DogAdoption.Repository/Repository.cs:54-65 | a query whose predicate compares the id gives the row with that id, included and projected, or nothing |
| DataAccess.QueryEmptyIffNoMatch | DogAdoption.Repository/Repository.cs:74-85 | for any reordering and any include, the result is empty exactly when no stored row matches the predicate |
| DataAccess.AppendNewKey | DogAdoption.Repository/Repository.cs:20-25 | appending a row with a new key keeps the keys distinct, and the new row is found at the end |
| DataAccess.IndexOfDistinct | DogAdoption.Repository/Repository.cs:34-46 | with distinct keys, looking up a stored row's key finds that row |
| DataAccess.ReplaceSameKey | DogAdoption.Repository/Repository.cs:34-39 | replacing a row by one with the same key keeps the keys distinct and the row in place |
| DataAccess.RemoveKey | DogAdoption.Repository/Repository.cs:41-46 | removing a row keeps the other keys distinct, and the removed key is gone |
| DataAccess.Repository.constructor | DogAdoption.Repository/Repository.cs:14-18 | a repository over a table with distinct keys starts valid, with no commits |
| DataAccess.Repository.Insert | DogAdoption.Repository/Repository.cs:20-25 | a new key is appended, the same entity is returned and one commit is counted; a stored key fails with DuplicateKey and changes nothing |
| DataAccess.Repository.InsertMany | DogAdoption.Repository/Repository.cs:27-32 | the whole batch is appended in one commit and the same collection is returned; a key clash stores none of it |
| DataAccess.Repository.Update | DogAdoption.Repository/Repository.cs:34-39 | the row with the entity's id is replaced by the entity, every other row is unchanged, one commit is counted and the entity is returned; an unknown id is a concurrency conflict that changes nothing |
| DataAccess.Repository.Delete | DogAdoption.Repository/Repository.cs:41-46 | the row with the entity's id is removed, the others keep their order, one commit is counted and the entity is returned; an unknown id is a concurrency conflict that changes nothing |
| DataAccess.Repository.GetAll | DogAdoption.Repository/Repository.cs:68-86 | without predicate or ordering, the selector applied to every stored row in store order; an empty table gives an empty sequence |
| DataAccess.Repository.Get | DogAdoption.Repository/Repository.cs:48-66 | `None` exactly when GetAll with the same arguments is empty, and otherwise GetAll's first element, that is the first row after the ordering |
| Services.WithBreed | DogAdoption.Service/Implementation/DogsService.cs:38 | Breed is the breed whose id is the dog's BreedId, or none; every other field is unchanged |
| Services.WithDogs | DogAdoption.Service/Implementation/BreedsService.cs:38 | Dogs holds exactly the stored dogs whose BreedId is the breed's id; every other field is unchanged |
| Services.WithApplications | DogAdoption.Service/Implementation/AdoptersService.cs:38 | Applications holds exactly the stored applications whose AdopterId is the adopter's id; every other field is unchanged |
| Services.WithAdopterAndDog | DogAdoption.Service/Implementation/AdoptionApplicationsService.cs:41-44 | Adopter and Dog are the records whose ids are the application's AdopterId and DogId; every other field is unchanged |
| Services.Adopted | DogAdoption.Service/Implementation/DogsService.cs:54 | Status becomes "Adopted" whatever it was; Id, Name, Age, Sex, BreedId and the navigations are unchanged |
| Services.AdoptedIdempotent | DogAdoption.Service/Implementation/DogsService.cs:54 | marking a dog adopted twice is marking it once |
| Services.DogsService.constructor | DogAdoption.Service/Implementation/DogsService.cs:15-18 | the service wraps a valid dog repository |
| Services.DogsService.GetById | DogAdoption.Service/Implementation/DogsService.cs:36-39 | the stored dog with this id, with its Breed loaded, or none when no dog has the id |
| Services.DogsService.GetAll | DogAdoption.Service/Implementation/DogsService.cs:31-34 | every stored dog in table order, one result per row, each with its Breed loaded |
| Services.DogsService.Add | DogAdoption.Service/Implementation/DogsService.cs:20-23 | Insert's outcome; on success the same dog is returned and GetById of its id then finds it |
| Services.DogsService.DeleteById | DogAdoption.Service/Implementation/DogsService.cs:25-29 | the dog stored under the id is removed and returned; an unknown id fails on `Remove(null)`; either way GetById of the id then finds nothing |
| Services.DogsService.Update | DogAdoption.Service/Implementation/DogsService.cs:41-44 | the stored dog with the same id is replaced by the whole record, which GetById then returns; an unknown id is a concurrency conflict |
| Services.DogsService.InsertMany | DogAdoption.Service/Implementation/DogsService.cs:46-49 | the whole collection is stored in one commit and returned unchanged; a key clash stores none of it |
| Services.DogsService.MarkAsAdopted | DogAdoption.Service/Implementation/DogsService.cs:51-56 | the stored dog with the id is replaced by its adopted form, with only Status changed, through one Update, and returned; an already adopted dog keeps the same record; an unknown id fails on the null record and changes nothing |
| Services.BreedsService.constructor | DogAdoption.Service/Implementation/BreedsService.cs:15-18 | the service wraps a valid breed repository |
| Services.BreedsService.GetById | DogAdoption.Service/Implementation/BreedsService.cs:36-39 | the stored breed with this id, with its Dogs loaded, or none |
| Services.BreedsService.GetAll | DogAdoption.Service/Implementation/BreedsService.cs:31-34 | every stored breed in table order, each with its Dogs loaded |
| Services.BreedsService.Add | DogAdoption.Service/Implementation/BreedsService.cs:20-23 | Insert's outcome; on success GetById then finds the breed |
| Services.BreedsService.DeleteById | DogAdoption.Service/Implementation/BreedsService.cs:25-29 | the breed stored under the id is removed and returned; an unknown id fails on `Remove(null)`; GetById then finds nothing |
| Services.BreedsService.Update | DogAdoption.Service/Implementation/BreedsService.cs:41-44 | whole-record replacement of the breed with the same id, which GetById then returns; an unknown id is a concurrency conflict |
| Services.BreedsService.InsertMany | DogAdoption.Service/Implementation/BreedsService.cs:46-49 | the whole collection in one commit, returned unchanged |
| Services.AdoptersService.constructor | DogAdoption.Service/Implementation/AdoptersService.cs:15-18 | the service wraps a valid adopter repository |
| Services.AdoptersService.GetById | DogAdoption.Service/Implementation/AdoptersService.cs:36-39 | the stored adopter with this id, with its Applications loaded, or none |
| Services.AdoptersService.GetAll | DogAdoption.Service/Implementation/AdoptersService.cs:31-34 | every stored adopter in table order, each with its Applications loaded |
| Services.AdoptersService.Add | DogAdoption.Service/Implementation/AdoptersService.cs:20-23 | Insert's outcome; on success GetById then finds the adopter |
| Services.AdoptersService.DeleteById | DogAdoption.Service/Implementation/AdoptersService.cs:25-29 | the adopter stored under the id is removed and returned; an unknown id fails on `Remove(null)`; GetById then finds nothing |
| Services.AdoptersService.Update | DogAdoption.Service/Implementation/AdoptersService.cs:41-44 | whole-record replacement of the adopter with the same id, which GetById then returns; an unknown id is a concurrency conflict |
| Services.AdoptersService.InsertMany | DogAdoption.Service/Implementation/AdoptersService.cs:46-49 | the whole collection in one commit, returned unchanged |
| Services.AdoptionApplicationsService.constructor | DogAdoption.Service/Implementation/AdoptionApplicationsService.cs:15-18 | the service wraps a valid application repository |
| Services.AdoptionApplicationsService.GetById | DogAdoption.Service/Implementation/AdoptionApplicationsService.cs:39-45 | the stored application with this id, with both Adopter and Dog loaded, or none |
| Services.AdoptionApplicationsService.GetAll | DogAdoption.Service/Implementation/AdoptionApplicationsService.cs:31-37 | every stored application in table order, each with Adopter and Dog loaded |
| Services.AdoptionApplicationsService.Add | DogAdoption.Service/Implementation/AdoptionApplicationsService.cs:20-23 | Insert's outcome; on success GetById then finds the application |
| Services.AdoptionApplicationsService.DeleteById | DogAdoption.Service/Implementation/AdoptionApplicationsService.cs:25-29 | the application stored under the id is removed and returned; an unknown id fails on `Remove(null)`; GetById then finds nothing |
| Services.AdoptionApplicationsService.Update | DogAdoption.Service/Implementation/AdoptionApplicationsService.cs:47-50 | whole-record replacement of the application with the same id, which GetById then returns; an unknown id is a concurrency conflict |
| Services.AdoptionApplicationsService.InsertMany | DogAdoption.Service/Implementation/AdoptionApplicationsService.cs:52-55 | the whole collection in one commit, returned unchanged |
| Seqs.Map | DogAdoption.Repository/Repository.cs:63-65 | LINQ `Select`: one result per element, in order, each the function of its element |
| Seqs.Where | DogAdoption.Repository/Repository.cs:56-57 | LINQ `Where`: the result holds only elements that pass, every element that passes, and nothing more than the input; it is empty exactly when none passes |
| Seqs.WhereConcat | DogAdoption.Repository/Repository.cs:56-57 | filtering a concatenation is the concatenation of the filtered parts, so the original order is kept |
| Seqs.WhereOne | DogAdoption.Repository/Repository.cs:56-57 | one element is kept exactly when it passes; with WhereConcat this fixes the result's order and multiplicity |
| Seqs.FirstIndex | DogAdoption.Service/Implementation/ExternalDogService.cs:53 | `Array.FindIndex`: the index found holds a match and no earlier element does; there is none exactly when nothing matches |
| Seqs.FirstIndexAt | DogAdoption.Service/Implementation/ExternalDogService.cs:53 | an index holding a match with no match before it is the one `Array.FindIndex` returns |
| Seqs.First | DogAdoption.Repository/Repository.cs:63-65 | `FirstOrDefault`: none exactly for the empty sequence, otherwise its first element |
| Seqs.WhereStartsAtFirstIndex | DogAdoption.Repository/Repository.cs:56-65 | the filtered sequence is empty exactly when there is no first match, and otherwise starts with it |
| Seqs.MapKeepsPermutation | DogAdoption.Repository/Repository.cs:62-63 | projecting two rearrangements of the same rows gives rearrangements of the same results |
| Seqs.Split | DogAdoption.Service/Implementation/ExternalDogService.cs:57 | `String.Split` on one character: at least one piece, and no piece holds the separator |
| Seqs.SplitNonEmpty | DogAdoption.Service/Implementation/ExternalDogService.cs:57 | with `RemoveEmptyEntries`: every piece is non-empty and free of the separator, and when `Split` gives no empty piece the result is exactly `Split`'s pieces |
| Seqs.SplitNonEmptyOfPiece | DogAdoption.Service/Implementation/ExternalDogService.cs:57 | text without the separator gives itself as the one piece, or no piece when it is empty |
| Seqs.SplitNonEmptyPeel | DogAdoption.Service/Implementation/ExternalDogService.cs:57 | the piece before the first separator is kept exactly when it is non-empty, in front of the pieces of the rest; with SplitNonEmptyOfPiece this fixes which pieces are kept and their order |
| Seqs.JoinLength | DogAdoption.Service/Implementation/ExternalDogService.cs:61 | `String.Join`: the result is as long as the pieces plus one separator between each two |
| Seqs.JoinSplit | DogAdoption.Service/Implementation/ExternalDogService.cs:57-61 | joining the pieces of a split with the separator rebuilds the text |
| Seqs.SplitJoin | DogAdoption.Service/Implementation/ExternalDogService.cs:57-61 | splitting separator-free pieces joined by the separator gives back the pieces |
| ExternalDog.IsWhiteSpace | DogAdoption.Service/Implementation/ExternalDogService.cs:49 | space, tab, line feed and carriage return are white space; no visible ASCII character is |
| ExternalDog.IsBlank | DogAdoption.Service/Implementation/ExternalDogService.cs:49 | `string.IsNullOrWhiteSpace`: the empty string is blank, and a text holding a visible ASCII character is not |
| ExternalDog.EqualsIgnoreCase | DogAdoption.Service/Implementation/ExternalDogService.cs:53 | equal texts compare equal, and texts that compare equal have the same length |
| ExternalDog.EqualsIgnoreCaseIsEquivalence | DogAdoption.Service/Implementation/ExternalDogService.cs:53 | the comparison is reflexive, symmetric and transitive |
| ExternalDog.BreedsMarkerSpellings | DogAdoption.Service/Implementation/ExternalDogService.cs:53 | "breeds", "BREEDS" and "Breeds" are the marker; "breed", "breedsx" and "" are not |
| ExternalDog.TrimStart | DogAdoption.Service/Implementation/ExternalDogService.cs:52 | only the character is cut from the front, and the result does not start with it |
| ExternalDog.TrimStartKeepsSuffix | DogAdoption.Service/Implementation/ExternalDogService.cs:52 | what TrimStart keeps is the rest of the text after the cut |
| ExternalDog.TrimEnd | DogAdoption.Service/Implementation/ExternalDogService.cs:52 | only the character is cut from the end, and the result does not end with it |
| ExternalDog.TrimEndKeepsPrefix | DogAdoption.Service/Implementation/ExternalDogService.cs:52 | what TrimEnd keeps is the start of the text before the cut |
| ExternalDog.Trim | DogAdoption.Service/Implementation/ExternalDogService.cs:52 | `Trim('/')`: the result neither starts nor ends with the character |
| ExternalDog.TrimIdempotent | DogAdoption.Service/Implementation/ExternalDogService.cs:52 | trimming twice is trimming once |
| ExternalDog.TrimWithout | DogAdoption.Service/Implementation/ExternalDogService.cs:52 | a text without the character is left as it is |
| ExternalDog.TrimTrailing | DogAdoption.Service/Implementation/ExternalDogService.cs:52 | a path segment loses exactly its trailing '/' |
| ExternalDog.SegmentParts | DogAdoption.Service/Implementation/ExternalDogService.cs:52 | one trimmed part per URI segment, in order |
| ExternalDog.ReadBreed | DogAdoption.Service/Implementation/ExternalDogService.cs:56-62 | with no piece the DTO is unchanged; one piece sets only the breed; more pieces set the breed to the first and the sub-breed to the rest joined by single spaces; the link and the provider are kept |
| ExternalDog.ParseDto | DogAdoption.Service/Implementation/ExternalDogService.cs:43-69 | PhotoLink is the URL (empty for null) and Source is "dog.ceo"; a null, blank or unparsable URL leaves both breed fields empty; the breed never holds '-', and a sub-breed comes only with a breed |
| ExternalDog.ParseDtoNoBreedPart | DogAdoption.Service/Implementation/ExternalDogService.cs:53-54 | with no "breeds" part, or with "breeds" as the last part, the result is the link, empty breed fields and dog.ceo |
| ExternalDog.ParseDtoAt | DogAdoption.Service/Implementation/ExternalDogService.cs:49-62 | when the first "breeds" part is followed by another part, the breed fields are read from that next part |
| ExternalDog.NoCharInJoin | DogAdoption.Service/Implementation/ExternalDogService.cs:61 | joining pieces that lack a character, with a separator that lacks it, gives a text that lacks it |
| ExternalDog.ReadBreedSegment | DogAdoption.Service/Implementation/ExternalDogService.cs:56-62 | a dog.ceo breed segment gives back its breed, and its sub-breed words joined by spaces, which split back into those words |
| ExternalDog.MarkerTrims | DogAdoption.Service/Implementation/ExternalDogService.cs:52-53 | the "breeds/" segment trims to a part that matches "breeds" |
| ExternalDog.BreedSegmentTrims | DogAdoption.Service/Implementation/ExternalDogService.cs:52 | the breed segment of an image path trims to itself without its '/' |
| ExternalDog.BeforeTrims | DogAdoption.Service/Implementation/ExternalDogService.cs:52 | the segments before "breeds" keep their places after trimming |
| ExternalDog.FindsBreedsMarker | DogAdoption.Service/Implementation/ExternalDogService.cs:52-56 | in an image path with no earlier "breeds", the first marker is the "breeds/" segment, and the next part is the breed segment |
| ExternalDog.BreedSegmentIsOneSegment | DogAdoption.Service/Implementation/ExternalDogService.cs:52 | a breed segment built from words holds no '/' and so stays one path segment |
| ExternalDog.BreedSegmentReads | DogAdoption.Service/Implementation/ExternalDogService.cs:56-62 | from the record ParseDto starts with, a breed segment gives the breed and the sub-breed joined by spaces |
| ExternalDog.ParseDtoFindsSegment | DogAdoption.Service/Implementation/ExternalDogService.cs:45-62 | on an image path, ParseDto reads the breed segment |
| ExternalDog.ParseDtoReadsBreedSegment | DogAdoption.Service/Implementation/ExternalDogService.cs:43-69 | round trip from the dog.ceo image URL format: the URL comes back as the link, the breed as TypeOfDog, and the sub-breed words joined by spaces as DogVariety |
| ExternalDog.HoundAfghan | DogAdoption.Service/Implementation/ExternalDogService.cs:43-69 | the example URL of breed "hound", sub-breed "afghan" gives exactly those fields |
| ExternalDog.ClampCount | DogAdoption.Service/Implementation/ExternalDogService.cs:30 | a count below 1 becomes 1; any other count is kept |
| ExternalDog.AddEach | DogAdoption.Service/Implementation/ExternalDogService.cs:35-40 | the list built by the loop has one entry per input, in the same order, each the conversion of its input |
| ExternalDog.GetRandom | DogAdoption.Service/Implementation/ExternalDogService.cs:20-26 | a missing message gives the fresh DTO; otherwise the ParseDto of the message |
| ExternalDog.GetRandomMany | DogAdoption.Service/Implementation/ExternalDogService.cs:28-41 | the count requested is the clamped count; a missing array gives an empty list; otherwise one DTO per URL in order |

## Left out

- The MVC controllers are not modelled. This covers id assignment on create
  (DopAdoptipon.Web/Controllers/DogsController.cs:115) and the branch that reads a concurrency
  conflict as "record no longer exists" (DopAdoptipon.Web/Controllers/AdoptersController.cs:79-82).
  Both are UI glue around the services.
- HTTP, JSON and async are not modelled (`GetStringAsync`, `JsonSerializer.Deserialize`, `Task`).
  The decoded answer is an input. Network failures and malformed JSON, which the source lets
  escape, are not modelled.
- `System.Uri` is not modelled. Its path segments are an input, and its constructor's exception
  is the `None` case.
- EF Core internals are not modelled: change tracking, expression trees, the SQL join behind
  `Include`, and client-side Guid generation on `Add`, which would replace an empty id.
- The engine's row order is not modelled. Reads without `orderBy` run a query with no ORDER BY
  against SQL Server (DopAdoptipon.Web/Program.cs:15-16), whose row order the engine decides.
  The model stands for it by insertion order, and placing a new row at the end is a modelling
  choice.
- Foreign keys are not modelled. `Dog.BreedId` (DopAdoption.Domain/DomainModels/Dog.cs:18) and
  `AdoptionApplication.DogId`/`AdopterId` (DopAdoption.Domain/DomainModels/AdoptionApplication.cs:11-12)
  are non-nullable Guids. By EF Core convention they become required foreign keys with cascade
  delete; the migrations that would fix this are not part of this model. In the model
  `DogsService.Add` of a dog whose BreedId names no breed succeeds, where the database would
  refuse it. `BreedsService.DeleteById` leaves the breed's dogs and their applications stored,
  where the database would delete them too.
- DataAccess.Repository.Update: an entity whose Id is the empty Guid is treated as any other
  unknown id and gives `ConcurrencyConflict`. With a store-generated key, EF tracks such an
  entity as added and inserts it; that path is not modelled.
- DataAccess.Repository.GetAll: returns the results as a value at call time. The source returns
  a deferred `AsEnumerable()` (DogAdoption.Repository/Repository.cs:83, 85) that runs when
  enumerated; the services enumerate it at once with `ToList`, so in the core the two agree.
- DataAccess.Repository.Get: a projection to a value type yields `default(E)`, not null, when
  nothing matches (DogAdoption.Repository/Repository.cs:63-65). The model gives `None` for every
  `E`; every call in the core selects the entity itself.
- Reference identity is not modelled (the tests' `Is.SameAs`). The model returns equal values.
- Cyclic navigation fix-up is not modelled. In EF, loading a breed's dogs also points each dog
  back at the breed. Here the navigations are values filled in one level deep.
- Graph inserts are not modelled. An entity handed to `Add` with loaded navigations is stored as
  a value; the related records are not inserted.
- Concurrency between callers and the database's own concurrency tokens are not modelled.
- `DateTime.UtcNow` is not modelled: `NewApplication` receives the clock reading as a parameter.
- The JSON property names of `DogApiDTO` are not modelled; they matter only to the serializer.
  They appear only as comments.
- ExternalDog.EqualsIgnoreCase: folds only ASCII letters. The full ordinal-ignore-case comparison
  also folds non-ASCII letters, which a path from System.Uri does not contain because non-ASCII
  characters are percent-escaped.
- DataAccess.Repository.Get: the lemmas about ordered queries assume `orderBy` only rearranges
  rows. That is the conventional meaning of `IOrderedQueryable` and is not checked in the source.
