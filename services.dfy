/** The per-entity services (DogsService.cs, BreedsService.cs, AdoptersService.cs,
    AdoptionApplicationsService.cs). Each delegates to one Repository and pins the include step
    its readers need. The include step is an EF join against another table of the same database
    context; each service therefore also holds that table's repository, which it only reads. */
module Services {
  import opened Wrappers
  import opened Seqs
  import opened DomainModels
  import opened DataAccess

  /** `Include(d => d.Breed)`: the dog with its breed loaded by `BreedId`. */
  function WithBreed(breeds: seq<Breed>, d: Dog): (r: Dog)
    ensures r.breed == FindById(breeds, BreedKey, d.breedId)
    ensures r.(breed := d.breed) == d
  {
    d.(breed := FindById(breeds, BreedKey, d.breedId))
  }

  /** `Include(b => b.Dogs)`: the breed with every dog whose `BreedId` is its id, in table order. */
  function WithDogs(dogs: seq<Dog>, b: Breed): (r: Breed)
    ensures forall i :: 0 <= i < |r.dogs| ==> r.dogs[i] in dogs && r.dogs[i].breedId == b.id
    ensures forall i :: 0 <= i < |dogs| && dogs[i].breedId == b.id ==> dogs[i] in r.dogs
    ensures r.(dogs := b.dogs) == b
  {
    b.(dogs := Where(dogs, (d: Dog) => d.breedId == b.id))
  }

  /** `Include(a => a.Applications)`: the adopter with every application whose `AdopterId` is
      its id, in table order. */
  function WithApplications(applications: seq<AdoptionApplication>, a: Adopter): (r: Adopter)
    ensures forall i :: 0 <= i < |r.applications| ==>
      r.applications[i] in applications && r.applications[i].adopterId == a.id
    ensures forall i :: 0 <= i < |applications| && applications[i].adopterId == a.id ==>
      applications[i] in r.applications
    ensures r.(applications := a.applications) == a
  {
    a.(applications := Where(applications, (x: AdoptionApplication) => x.adopterId == a.id))
  }

  /** `Include(y => y.Adopter).Include(y => y.Dog)`: the application with its adopter and its
      dog loaded by their ids. */
  function WithAdopterAndDog(adopters: seq<Adopter>, dogs: seq<Dog>, a: AdoptionApplication)
    : (r: AdoptionApplication)
    ensures r.adopter == FindById(adopters, AdopterKey, a.adopterId)
    ensures r.dog == FindById(dogs, DogKey, a.dogId)
    ensures r.(adopter := a.adopter, dog := a.dog) == a
  {
    a.(adopter := FindById(adopters, AdopterKey, a.adopterId))
     .(dog := FindById(dogs, DogKey, a.dogId))
  }

  /** The one domain transition: the status is forced to "Adopted" whatever it was, and no
      other field changes. */
  function Adopted(d: Dog): (r: Dog)
    ensures r.status == "Adopted"
    ensures r.id == d.id && r.name == d.name && r.age == d.age && r.sex == d.sex
    ensures r.breedId == d.breedId && r.breed == d.breed && r.applications == d.applications
  {
    d.(status := "Adopted")
  }

  /** Marking twice is marking once. */
  lemma AdoptedIdempotent(d: Dog)
    ensures Adopted(Adopted(d)) == Adopted(d)
  {
  }

  class DogsService {
    const repo: Repository<Dog>
    /** The Breeds table of the same context, read by the include step. */
    const breeds: Repository<Breed>

    ghost predicate Valid()
      reads repo
    {
      repo.Valid() && repo.key == DogKey
    }

    constructor (repo: Repository<Dog>, breeds: Repository<Breed>)
      requires repo.Valid() && repo.key == DogKey
      ensures Valid() && this.repo == repo && this.breeds == breeds
    {
      this.repo := repo;
      this.breeds := breeds;
    }

    /** GetById: the stored dog with this id, with its breed loaded, or `None`. */
    function GetById(id: Guid): (r: Option<Dog>)
      reads repo, breeds
      ensures r == match FindById(repo.rows, DogKey, id)
        case None => None
        case Some(d) => Some(WithBreed(breeds.rows, d))
      ensures r.Some? ==> r.value.id == id
    {
      var everything := (x: Dog) => x;
      var byId := (y: Dog) => y.id == id;
      var bs := breeds.rows;
      var loadBreed := (d: Dog) => WithBreed(bs, d);
      QueryById(repo.rows, DogKey, id, everything, byId, Some(loadBreed));
      repo.Get(everything, Some(byId), None, Some(loadBreed))
    }

    /** GetAll: every stored dog, in table order, each with its breed loaded. */
    function GetAll(): (r: seq<Dog>)
      reads repo, breeds
      ensures |r| == |repo.rows|
      ensures forall i :: 0 <= i < |r| ==> r[i] == WithBreed(breeds.rows, repo.rows[i])
    {
      var bs := breeds.rows;
      repo.GetAll((x: Dog) => x, None, None, Some((d: Dog) => WithBreed(bs, d)))
    }

    /** Add: insert the dog and return it; afterwards GetById finds it. */
    method Add(dog: Dog) returns (r: Result<Dog, Failure>)
      requires Valid()
      modifies repo
      ensures Valid()
      ensures IndexOf(old(repo.rows), DogKey, dog.id).Some? ==>
        r == Err(DuplicateKey) && repo.rows == old(repo.rows) && repo.commits == old(repo.commits)
      ensures IndexOf(old(repo.rows), DogKey, dog.id).None? ==>
        r == Ok(dog) && repo.rows == old(repo.rows) + [dog] && repo.commits == old(repo.commits) + 1
        && GetById(dog.id) == Some(WithBreed(breeds.rows, dog))
    {
      r := repo.Insert(dog);
      if r.Ok? {
        AppendNewKey(old(repo.rows), DogKey, dog);
      }
    }

    /** DeleteById: look the dog up by id, delete that record and return it. When no dog has
        the id, the lookup yields null and `Remove(null)` throws. Either way no dog with the id
        is left. */
    method DeleteById(id: Guid) returns (r: Result<Dog, Failure>)
      requires Valid()
      modifies repo
      ensures Valid()
      ensures match IndexOf(old(repo.rows), DogKey, id)
        case None =>
          r == Err(NullArgument) && repo.rows == old(repo.rows) && repo.commits == old(repo.commits)
        case Some(k) =>
          r == Ok(old(repo.rows)[k]) && repo.rows == old(repo.rows)[..k] + old(repo.rows)[k + 1..]
          && repo.commits == old(repo.commits) + 1
      ensures GetById(id).None?
    {
      var everything := (x: Dog) => x;
      var byId := (y: Dog) => y.id == id;
      QueryById(repo.rows, DogKey, id, everything, byId, None);
      var found := repo.Get(everything, Some(byId), None, None);
      if found.None? {
        r := Err(NullArgument);
      } else {
        ghost var k := IndexOf(repo.rows, DogKey, id).value;
        r := repo.Delete(found.value);
        RemoveKey(old(repo.rows), DogKey, k);
      }
    }

    /** Update: replace the stored dog with the same id by this one (every field) and return
        it; afterwards GetById yields exactly this dog. */
    method Update(dog: Dog) returns (r: Result<Dog, Failure>)
      requires Valid()
      modifies repo
      ensures Valid()
      ensures match IndexOf(old(repo.rows), DogKey, dog.id)
        case None =>
          r == Err(ConcurrencyConflict) && repo.rows == old(repo.rows)
          && repo.commits == old(repo.commits)
        case Some(k) =>
          r == Ok(dog) && repo.rows == old(repo.rows)[k := dog] && repo.commits == old(repo.commits) + 1
          && GetById(dog.id) == Some(WithBreed(breeds.rows, dog))
    {
      r := repo.Update(dog);
      if r.Ok? {
        ReplaceSameKey(old(repo.rows), DogKey, IndexOf(old(repo.rows), DogKey, dog.id).value, dog);
      }
    }

    /** InsertMany: insert the whole collection in one commit and return the same collection. */
    method InsertMany(dogs: seq<Dog>) returns (r: Result<seq<Dog>, Failure>)
      requires Valid()
      modifies repo
      ensures Valid()
      ensures !DistinctKeys(old(repo.rows) + dogs, DogKey) ==>
        r == Err(DuplicateKey) && repo.rows == old(repo.rows) && repo.commits == old(repo.commits)
      ensures DistinctKeys(old(repo.rows) + dogs, DogKey) ==>
        r == Ok(dogs) && repo.rows == old(repo.rows) + dogs && repo.commits == old(repo.commits) + 1
    {
      r := repo.InsertMany(dogs);
    }

    /** MarkAsAdopted: load the dog by id (without its breed), set its status to "Adopted" and
        update it. No guard on the prior status; on an unknown id the status is set on null.
        A dog that is already adopted keeps the same record. */
    method MarkAsAdopted(id: Guid) returns (r: Result<Dog, Failure>)
      requires Valid()
      modifies repo
      ensures Valid()
      ensures match IndexOf(old(repo.rows), DogKey, id)
        case None =>
          r == Err(NullReference) && repo.rows == old(repo.rows)
          && repo.commits == old(repo.commits)
        case Some(k) =>
          r == Ok(Adopted(old(repo.rows)[k]))
          && repo.rows == old(repo.rows)[k := Adopted(old(repo.rows)[k])]
          && repo.commits == old(repo.commits) + 1
          && (old(repo.rows)[k].status == "Adopted" ==> repo.rows == old(repo.rows))
    {
      var everything := (x: Dog) => x;
      var byId := (y: Dog) => y.id == id;
      QueryById(repo.rows, DogKey, id, everything, byId, None);
      var found := repo.Get(everything, Some(byId), None, None);
      if found.None? {
        r := Err(NullReference);
      } else {
        var dog := found.value.(status := "Adopted");
        r := repo.Update(dog);
      }
    }
  }

  class BreedsService {
    const repo: Repository<Breed>
    /** The Dogs table of the same context, read by the include step. */
    const dogs: Repository<Dog>

    ghost predicate Valid()
      reads repo
    {
      repo.Valid() && repo.key == BreedKey
    }

    constructor (repo: Repository<Breed>, dogs: Repository<Dog>)
      requires repo.Valid() && repo.key == BreedKey
      ensures Valid() && this.repo == repo && this.dogs == dogs
    {
      this.repo := repo;
      this.dogs := dogs;
    }

    /** GetById: the stored breed with this id, with its dogs loaded, or `None`. */
    function GetById(id: Guid): (r: Option<Breed>)
      reads repo, dogs
      ensures r == match FindById(repo.rows, BreedKey, id)
        case None => None
        case Some(x) => Some(WithDogs(dogs.rows, x))
      ensures r.Some? ==> r.value.id == id
    {
      var everything := (x: Breed) => x;
      var byId := (y: Breed) => y.id == id;
      var ds := dogs.rows;
      var load := (x: Breed) => WithDogs(ds, x);
      QueryById(repo.rows, BreedKey, id, everything, byId, Some(load));
      repo.Get(everything, Some(byId), None, Some(load))
    }

    /** GetAll: every stored breed, in table order, each with its dogs loaded. */
    function GetAll(): (r: seq<Breed>)
      reads repo, dogs
      ensures |r| == |repo.rows|
      ensures forall i :: 0 <= i < |r| ==> r[i] == WithDogs(dogs.rows, repo.rows[i])
    {
      var ds := dogs.rows;
      repo.GetAll((x: Breed) => x, None, None, Some((x: Breed) => WithDogs(ds, x)))
    }

    /** Add: insert the breed and return it; afterwards GetById finds it. */
    method Add(breed: Breed) returns (r: Result<Breed, Failure>)
      requires Valid()
      modifies repo
      ensures Valid()
      ensures IndexOf(old(repo.rows), BreedKey, breed.id).Some? ==>
        r == Err(DuplicateKey) && repo.rows == old(repo.rows) && repo.commits == old(repo.commits)
      ensures IndexOf(old(repo.rows), BreedKey, breed.id).None? ==>
        r == Ok(breed) && repo.rows == old(repo.rows) + [breed]
        && repo.commits == old(repo.commits) + 1
        && GetById(breed.id) == Some(WithDogs(dogs.rows, breed))
    {
      r := repo.Insert(breed);
      if r.Ok? {
        AppendNewKey(old(repo.rows), BreedKey, breed);
      }
    }

    /** DeleteById: look the breed up by id, delete that record and return it. When no breed
        has the id, the lookup yields null and `Remove(null)` throws. Either way no breed with
        the id is left. */
    method DeleteById(id: Guid) returns (r: Result<Breed, Failure>)
      requires Valid()
      modifies repo
      ensures Valid()
      ensures match IndexOf(old(repo.rows), BreedKey, id)
        case None =>
          r == Err(NullArgument) && repo.rows == old(repo.rows) && repo.commits == old(repo.commits)
        case Some(k) =>
          r == Ok(old(repo.rows)[k]) && repo.rows == old(repo.rows)[..k] + old(repo.rows)[k + 1..]
          && repo.commits == old(repo.commits) + 1
      ensures GetById(id).None?
    {
      var everything := (x: Breed) => x;
      var byId := (y: Breed) => y.id == id;
      QueryById(repo.rows, BreedKey, id, everything, byId, None);
      var found := repo.Get(everything, Some(byId), None, None);
      if found.None? {
        r := Err(NullArgument);
      } else {
        ghost var k := IndexOf(repo.rows, BreedKey, id).value;
        r := repo.Delete(found.value);
        RemoveKey(old(repo.rows), BreedKey, k);
      }
    }

    /** Update: replace the stored breed with the same id by this one (every field) and
        return it; afterwards GetById yields exactly this record. */
    method Update(breed: Breed) returns (r: Result<Breed, Failure>)
      requires Valid()
      modifies repo
      ensures Valid()
      ensures match IndexOf(old(repo.rows), BreedKey, breed.id)
        case None =>
          r == Err(ConcurrencyConflict) && repo.rows == old(repo.rows)
          && repo.commits == old(repo.commits)
        case Some(k) =>
          r == Ok(breed) && repo.rows == old(repo.rows)[k := breed]
          && repo.commits == old(repo.commits) + 1
          && GetById(breed.id) == Some(WithDogs(dogs.rows, breed))
    {
      r := repo.Update(breed);
      if r.Ok? {
        ReplaceSameKey(old(repo.rows), BreedKey, IndexOf(old(repo.rows), BreedKey, breed.id).value, breed);
      }
    }

    /** InsertMany: insert the whole collection in one commit and return the same collection. */
    method InsertMany(breeds: seq<Breed>) returns (r: Result<seq<Breed>, Failure>)
      requires Valid()
      modifies repo
      ensures Valid()
      ensures !DistinctKeys(old(repo.rows) + breeds, BreedKey) ==>
        r == Err(DuplicateKey) && repo.rows == old(repo.rows) && repo.commits == old(repo.commits)
      ensures DistinctKeys(old(repo.rows) + breeds, BreedKey) ==>
        r == Ok(breeds) && repo.rows == old(repo.rows) + breeds && repo.commits == old(repo.commits) + 1
    {
      r := repo.InsertMany(breeds);
    }
  }

  class AdoptersService {
    const repo: Repository<Adopter>
    /** The Applications table of the same context, read by the include step. */
    const applications: Repository<AdoptionApplication>

    ghost predicate Valid()
      reads repo
    {
      repo.Valid() && repo.key == AdopterKey
    }

    constructor (repo: Repository<Adopter>, applications: Repository<AdoptionApplication>)
      requires repo.Valid() && repo.key == AdopterKey
      ensures Valid() && this.repo == repo && this.applications == applications
    {
      this.repo := repo;
      this.applications := applications;
    }

    /** GetById: the stored adopter with this id, with its applications loaded, or `None`. */
    function GetById(id: Guid): (r: Option<Adopter>)
      reads repo, applications
      ensures r == match FindById(repo.rows, AdopterKey, id)
        case None => None
        case Some(x) => Some(WithApplications(applications.rows, x))
      ensures r.Some? ==> r.value.id == id
    {
      var everything := (x: Adopter) => x;
      var byId := (y: Adopter) => y.id == id;
      var apps := applications.rows;
      var load := (x: Adopter) => WithApplications(apps, x);
      QueryById(repo.rows, AdopterKey, id, everything, byId, Some(load));
      repo.Get(everything, Some(byId), None, Some(load))
    }

    /** GetAll: every stored adopter, in table order, each with its applications loaded. */
    function GetAll(): (r: seq<Adopter>)
      reads repo, applications
      ensures |r| == |repo.rows|
      ensures forall i :: 0 <= i < |r| ==> r[i] == WithApplications(applications.rows, repo.rows[i])
    {
      var apps := applications.rows;
      repo.GetAll((x: Adopter) => x, None, None, Some((x: Adopter) => WithApplications(apps, x)))
    }

    /** Add: insert the adopter and return it; afterwards GetById finds it. */
    method Add(adopter: Adopter) returns (r: Result<Adopter, Failure>)
      requires Valid()
      modifies repo
      ensures Valid()
      ensures IndexOf(old(repo.rows), AdopterKey, adopter.id).Some? ==>
        r == Err(DuplicateKey) && repo.rows == old(repo.rows) && repo.commits == old(repo.commits)
      ensures IndexOf(old(repo.rows), AdopterKey, adopter.id).None? ==>
        r == Ok(adopter) && repo.rows == old(repo.rows) + [adopter]
        && repo.commits == old(repo.commits) + 1
        && GetById(adopter.id) == Some(WithApplications(applications.rows, adopter))
    {
      r := repo.Insert(adopter);
      if r.Ok? {
        AppendNewKey(old(repo.rows), AdopterKey, adopter);
      }
    }

    /** DeleteById: look the adopter up by id, delete that record and return it. When no adopter
        has the id, the lookup yields null and `Remove(null)` throws. Either way no adopter with
        the id is left. */
    method DeleteById(id: Guid) returns (r: Result<Adopter, Failure>)
      requires Valid()
      modifies repo
      ensures Valid()
      ensures match IndexOf(old(repo.rows), AdopterKey, id)
        case None =>
          r == Err(NullArgument) && repo.rows == old(repo.rows) && repo.commits == old(repo.commits)
        case Some(k) =>
          r == Ok(old(repo.rows)[k]) && repo.rows == old(repo.rows)[..k] + old(repo.rows)[k + 1..]
          && repo.commits == old(repo.commits) + 1
      ensures GetById(id).None?
    {
      var everything := (x: Adopter) => x;
      var byId := (y: Adopter) => y.id == id;
      QueryById(repo.rows, AdopterKey, id, everything, byId, None);
      var found := repo.Get(everything, Some(byId), None, None);
      if found.None? {
        r := Err(NullArgument);
      } else {
        ghost var k := IndexOf(repo.rows, AdopterKey, id).value;
        r := repo.Delete(found.value);
        RemoveKey(old(repo.rows), AdopterKey, k);
      }
    }

    /** Update: replace the stored adopter with the same id by this one (every field) and
        return it; afterwards GetById yields exactly this record. */
    method Update(adopter: Adopter) returns (r: Result<Adopter, Failure>)
      requires Valid()
      modifies repo
      ensures Valid()
      ensures match IndexOf(old(repo.rows), AdopterKey, adopter.id)
        case None =>
          r == Err(ConcurrencyConflict) && repo.rows == old(repo.rows)
          && repo.commits == old(repo.commits)
        case Some(k) =>
          r == Ok(adopter) && repo.rows == old(repo.rows)[k := adopter]
          && repo.commits == old(repo.commits) + 1
          && GetById(adopter.id) == Some(WithApplications(applications.rows, adopter))
    {
      r := repo.Update(adopter);
      if r.Ok? {
        ReplaceSameKey(old(repo.rows), AdopterKey, IndexOf(old(repo.rows), AdopterKey, adopter.id).value, adopter);
      }
    }

    /** InsertMany: insert the whole collection in one commit and return the same collection. */
    method InsertMany(adopters: seq<Adopter>) returns (r: Result<seq<Adopter>, Failure>)
      requires Valid()
      modifies repo
      ensures Valid()
      ensures !DistinctKeys(old(repo.rows) + adopters, AdopterKey) ==>
        r == Err(DuplicateKey) && repo.rows == old(repo.rows) && repo.commits == old(repo.commits)
      ensures DistinctKeys(old(repo.rows) + adopters, AdopterKey) ==>
        r == Ok(adopters) && repo.rows == old(repo.rows) + adopters && repo.commits == old(repo.commits) + 1
    {
      r := repo.InsertMany(adopters);
    }
  }

  class AdoptionApplicationsService {
    const repo: Repository<AdoptionApplication>
    /** The Adopters and Dogs tables of the same context, read by the include step. */
    const adopters: Repository<Adopter>
    const dogs: Repository<Dog>

    ghost predicate Valid()
      reads repo
    {
      repo.Valid() && repo.key == ApplicationKey
    }

    constructor (repo: Repository<AdoptionApplication>, adopters: Repository<Adopter>,
                 dogs: Repository<Dog>)
      requires repo.Valid() && repo.key == ApplicationKey
      ensures Valid() && this.repo == repo && this.adopters == adopters && this.dogs == dogs
    {
      this.repo := repo;
      this.adopters := adopters;
      this.dogs := dogs;
    }

    /** GetById: the stored application with this id, with its adopter and its dog loaded, or `None`. */
    function GetById(id: Guid): (r: Option<AdoptionApplication>)
      reads repo, adopters, dogs
      ensures r == match FindById(repo.rows, ApplicationKey, id)
        case None => None
        case Some(x) => Some(WithAdopterAndDog(adopters.rows, dogs.rows, x))
      ensures r.Some? ==> r.value.id == id
    {
      var everything := (x: AdoptionApplication) => x;
      var byId := (y: AdoptionApplication) => y.id == id;
      var ads, ds := adopters.rows, dogs.rows;
      var load := (x: AdoptionApplication) => WithAdopterAndDog(ads, ds, x);
      QueryById(repo.rows, ApplicationKey, id, everything, byId, Some(load));
      repo.Get(everything, Some(byId), None, Some(load))
    }

    /** GetAll: every stored application, in table order, each with its adopter and its dog loaded. */
    function GetAll(): (r: seq<AdoptionApplication>)
      reads repo, adopters, dogs
      ensures |r| == |repo.rows|
      ensures forall i :: 0 <= i < |r| ==> r[i] == WithAdopterAndDog(adopters.rows, dogs.rows, repo.rows[i])
    {
      var ads, ds := adopters.rows, dogs.rows;
      repo.GetAll((x: AdoptionApplication) => x, None, None, Some((x: AdoptionApplication) => WithAdopterAndDog(ads, ds, x)))
    }

    /** Add: insert the application and return it; afterwards GetById finds it. */
    method Add(application: AdoptionApplication) returns (r: Result<AdoptionApplication, Failure>)
      requires Valid()
      modifies repo
      ensures Valid()
      ensures IndexOf(old(repo.rows), ApplicationKey, application.id).Some? ==>
        r == Err(DuplicateKey) && repo.rows == old(repo.rows) && repo.commits == old(repo.commits)
      ensures IndexOf(old(repo.rows), ApplicationKey, application.id).None? ==>
        r == Ok(application) && repo.rows == old(repo.rows) + [application]
        && repo.commits == old(repo.commits) + 1
        && GetById(application.id) == Some(WithAdopterAndDog(adopters.rows, dogs.rows, application))
    {
      r := repo.Insert(application);
      if r.Ok? {
        AppendNewKey(old(repo.rows), ApplicationKey, application);
      }
    }

    /** DeleteById: look the application up by id, delete that record and return it. When no application
        has the id, the lookup yields null and `Remove(null)` throws. Either way no application with
        the id is left. */
    method DeleteById(id: Guid) returns (r: Result<AdoptionApplication, Failure>)
      requires Valid()
      modifies repo
      ensures Valid()
      ensures match IndexOf(old(repo.rows), ApplicationKey, id)
        case None =>
          r == Err(NullArgument) && repo.rows == old(repo.rows) && repo.commits == old(repo.commits)
        case Some(k) =>
          r == Ok(old(repo.rows)[k]) && repo.rows == old(repo.rows)[..k] + old(repo.rows)[k + 1..]
          && repo.commits == old(repo.commits) + 1
      ensures GetById(id).None?
    {
      var everything := (x: AdoptionApplication) => x;
      var byId := (y: AdoptionApplication) => y.id == id;
      QueryById(repo.rows, ApplicationKey, id, everything, byId, None);
      var found := repo.Get(everything, Some(byId), None, None);
      if found.None? {
        r := Err(NullArgument);
      } else {
        ghost var k := IndexOf(repo.rows, ApplicationKey, id).value;
        r := repo.Delete(found.value);
        RemoveKey(old(repo.rows), ApplicationKey, k);
      }
    }

    /** Update: replace the stored application with the same id by this one (every field) and
        return it; afterwards GetById yields exactly this record. */
    method Update(application: AdoptionApplication) returns (r: Result<AdoptionApplication, Failure>)
      requires Valid()
      modifies repo
      ensures Valid()
      ensures match IndexOf(old(repo.rows), ApplicationKey, application.id)
        case None =>
          r == Err(ConcurrencyConflict) && repo.rows == old(repo.rows)
          && repo.commits == old(repo.commits)
        case Some(k) =>
          r == Ok(application) && repo.rows == old(repo.rows)[k := application]
          && repo.commits == old(repo.commits) + 1
          && GetById(application.id) == Some(WithAdopterAndDog(adopters.rows, dogs.rows, application))
    {
      r := repo.Update(application);
      if r.Ok? {
        ReplaceSameKey(old(repo.rows), ApplicationKey, IndexOf(old(repo.rows), ApplicationKey, application.id).value, application);
      }
    }

    /** InsertMany: insert the whole collection in one commit and return the same collection. */
    method InsertMany(applications: seq<AdoptionApplication>) returns (r: Result<seq<AdoptionApplication>, Failure>)
      requires Valid()
      modifies repo
      ensures Valid()
      ensures !DistinctKeys(old(repo.rows) + applications, ApplicationKey) ==>
        r == Err(DuplicateKey) && repo.rows == old(repo.rows) && repo.commits == old(repo.commits)
      ensures DistinctKeys(old(repo.rows) + applications, ApplicationKey) ==>
        r == Ok(applications) && repo.rows == old(repo.rows) + applications && repo.commits == old(repo.commits) + 1
    {
      r := repo.InsertMany(applications);
    }
  }
}
