/** DogApiDTO.cs: the normalised photo record built from a dog.ceo image URL. */
module Dtos {

  /** The provider name every record carries. */
  const DogCeo: string := "dog.ceo"

  datatype DogApiDto = DogApiDto(
    photoLink: string,   // serialised as "imageUrl"
    typeOfDog: string,   // serialised as "breed"
    dogVariety: string,  // serialised as "subBreed"
    source: string)      // serialised as "provider"

  /** `new DogApiDTO()`: three empty strings and the dog.ceo provider. */
  function NewDogApiDto(): (d: DogApiDto)
    ensures d.photoLink == "" && d.typeOfDog == "" && d.dogVariety == ""
    ensures d.source == DogCeo
  {
    DogApiDto("", "", "", DogCeo)
  }
}
