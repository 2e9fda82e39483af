/**
 * The records the controller works on: the `Film` row, the form a user
 * posts (`FilmEditViewModel`; the create form is taken to have the same
 * fields) and the uploaded poster (`IFormFile`).
 */
module Models {
  import opened Wrappers
  import opened Guids

  /** `User.Id`, an ASP.NET Identity user id. */
  type UserId = string

  /** Opaque file contents. */
  type Bytes = seq<bv8>

  /** A row of the Films table. `path` is the public poster path. */
  datatype Film = Film(
    id: Guid,
    creatorId: UserId,
    name: string,
    description: string,
    year: string,
    producer: string,
    path: string)

  /** An uploaded file: the `filename` parameter of its Content-Disposition
      header (None when the header yields no file name) and its bytes. */
  datatype Upload = Upload(fileName: Option<string>, content: Bytes)

  /** The posted form; `poster` is None when no file was posted (a null `IFormFile`). */
  datatype FilmForm = FilmForm(
    name: string,
    description: string,
    year: string,
    producer: string,
    poster: Option<Upload>)
}
