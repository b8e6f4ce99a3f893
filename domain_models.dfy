/** The four entity records of the adoption centre (Dog, Breed, Adopter, AdoptionApplication)
    and the identity they share through BaseEntity.

    Navigation properties (`Breed`, `Dogs`, `Applications`, `Dog`, `Adopter`) are values here:
    `None` / `[]` until a query's include step fills them in. The records are mutually recursive
    because the navigations point both ways. */
module DomainModels {
  import opened Wrappers

  /** A System.Guid: 128 bits. */
  newtype Guid = x: int | 0 <= x < 0x1_0000_0000_0000_0000_0000_0000_0000_0000

  /** `Guid.Empty`, the all-zero value that an entity's `Id` holds until somebody assigns it. */
  const EmptyGuid: Guid := 0

  predicate IsEmpty(g: Guid) {
    g == EmptyGuid
  }

  /** A C# `int`. */
  newtype Int32 = x: int | -0x8000_0000 <= x < 0x8000_0000

  /** A System.DateTime, counted in 100-nanosecond ticks. */
  datatype DateTime = DateTime(ticks: nat)

  /** Dog.cs. `age` is an unconstrained `int`: the range check on it is commented out. */
  datatype Dog = Dog(
    id: Guid,
    name: string,
    age: Int32,
    sex: string,
    breedId: Guid,
    status: string,
    breed: Option<Breed>,
    applications: seq<AdoptionApplication>)

  /** Breed.cs: an id, a name and the back-reference to the dogs of this breed. */
  datatype Breed = Breed(
    id: Guid,
    name: string,
    dogs: seq<Dog>)

  /** Adopter.cs. `phone` is the one optional scalar. */
  datatype Adopter = Adopter(
    id: Guid,
    fullName: string,
    email: string,
    phone: Option<string>,
    applications: seq<AdoptionApplication>)

  /** AdoptionApplication.cs: one dog and one adopter, referenced by id. */
  datatype AdoptionApplication = AdoptionApplication(
    id: Guid,
    dogId: Guid,
    adopterId: Guid,
    createdOn: DateTime,
    status: string,
    notes: Option<string>,
    dog: Option<Dog>,
    adopter: Option<Adopter>)

  /** The key of each record, handed to the generic repository. */
  function DogKey(d: Dog): Guid { d.id }
  function BreedKey(b: Breed): Guid { b.id }
  function AdopterKey(a: Adopter): Guid { a.id }
  function ApplicationKey(a: AdoptionApplication): Guid { a.id }

  /** `new Dog { Name = name }`: the property initialisers of Dog.cs. `Name` has no initialiser
      (it would be null), so the caller supplies it, as every object initialiser in the source does. */
  function NewDog(name: string): (d: Dog)
    ensures IsEmpty(d.id) && d.name == name && d.age == 0
    ensures d.sex == "M" && d.status == "Available"
    ensures IsEmpty(d.breedId) && d.breed.None? && d.applications == []
  {
    Dog(EmptyGuid, name, 0, "M", EmptyGuid, "Available", None, [])
  }

  /** `new Breed()`: an empty name and no dogs. */
  function NewBreed(): (b: Breed)
    ensures IsEmpty(b.id) && b.name == "" && b.dogs == []
  {
    Breed(EmptyGuid, "", [])
  }

  /** `new Adopter { FullName = fullName, Email = email }`: neither has an initialiser, so the
      caller supplies both; no phone and no applications. */
  function NewAdopter(fullName: string, email: string): (a: Adopter)
    ensures IsEmpty(a.id) && a.fullName == fullName && a.email == email
    ensures a.phone.None? && a.applications == []
  {
    Adopter(EmptyGuid, fullName, email, None, [])
  }

  /** `new AdoptionApplication()`, with the clock reading `DateTime.UtcNow` passed in as `now`. */
  function NewApplication(now: DateTime): (a: AdoptionApplication)
    ensures IsEmpty(a.id) && IsEmpty(a.dogId) && IsEmpty(a.adopterId)
    ensures a.createdOn == now && a.status == "Pending"
    ensures a.notes.None? && a.dog.None? && a.adopter.None?
  {
    AdoptionApplication(EmptyGuid, EmptyGuid, EmptyGuid, now, "Pending", None, None, None)
  }
}
