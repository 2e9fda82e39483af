# FilmsCatalog: films controller and ownership rule

A model of the two core pieces of FilmsCatalog, an ASP.NET Core MVC catalog
of films:

- `FilmsController`: the catalog actions. It lists the films fifteen per
  page and shows one film. It creates a film together with its poster
  upload. It edits a film's fields and writes a new poster. It deletes a
  film and its poster file.
- `UserPermissionsService.CanEditFilm`: the rule that only a film's creator
  may edit or delete it.

Modules:

- `Wrappers`: the `Option` type.
- `PathNames`: the three .NET library operations the controller applies to
  an upload name, written as scans and characterised by their contracts.
  These are `String.Trim('"')`, `Path.GetFileName` and `Path.GetExtension`.
- `Guids`: a `System.Guid` as a 128-bit number. `ToString("N")` is its 32
  lower-case hexadecimal digits, and a lemma proves that this format can
  be read back.
- `Models`: the `Film` row, the posted form and the uploaded file.
- `UserPermissions`: `CanEditFilm`.
- `Attachments`: the extension allow-list, the extension taken from an
  upload, and the storage name and public path derived from a film's id.
- `Controllers`: the class `FilmsController`. It has two fields:
  - `films`: the committed rows of the Films table, by id;
  - `files`: the files under `wwwroot/attachments`, by name.

  Each action is a method. It runs the source's steps in order and
  returns the source's result as an `Outcome`.

The catalog invariant is `CatalogOk`, read through `Valid()`. It says:

- every stored film is keyed by its id;
- every stored film's path is `/attachments/<id:N><ext>` for an allowed
  extension;
- every stored film's poster file exists;
- every file is named after a Guid that was issued to a film.

Two ghost fields give the invariant its witnesses:

- `issued`: every Guid handed out so far;
- `posterExt`: the extension each poster was written with.

Every action preserves the invariant, with one exception noted below.

External effects are parameters:

- `caller`: the authenticated user's id, or `None` for an anonymous
  request. `[Authorize]` turns `None` into `Challenge`.
- `modelStateValid`: model-binding validity apart from the extension check,
  such as the `[Required] Name` attribute of the view models.
- `saved`: whether `SaveChangesAsync` succeeds.
- `newId`: the Guid a new `Film` gets (`Guid.NewGuid()` in
  `Models/Film.cs:13`). It is required to be no key of the table.
- `order`: the order in which the database enumerates the rows, for `Index`.

Where the code falls short of what one would expect of a consistent
catalog, the model follows the code:

- A non-owner who edits or deletes a film gets `NotFound`, not a separate
  "forbidden" answer. The check happens before the upload is inspected.
- Nothing is rolled back:
  - In create and edit, a failed save leaves the written poster file
    behind. `files` keeps it, and it is still named after an issued Guid.
  - In delete, the file is removed before the save. A failed save leaves
    the row without its poster. `DeleteConfirmed` proves this state and
    only claims `Valid()` when the save succeeds.
- Edit writes the new poster with `FileMode.CreateNew` and never deletes
  the old one:
  - A new extension leaves the old file as an orphan.
  - When the invariant holds beforehand, so that the poster file exists,
    re-uploading a poster with the current extension fails with
    `WriteFailed`. `EditPost` proves this. After a delete whose save failed
    the file is gone, and the same re-upload succeeds.
- Create: when the invariant holds beforehand, a Guid that was never
  issued cannot collide with an existing file. Under those two conditions
  `Create` proves that `WriteFailed` is impossible.
- Both create and edit read the poster's `ContentDisposition` before the
  extension and model-state checks, so a missing poster is an unhandled
  exception (`Fault`). In edit this follows the id, lookup and ownership
  checks. It makes the `model.Poster != null` test in edit always true.
- Extensions are matched case-sensitively, so `.JPG` is refused.

## Model

| member | source | states |
|---|---|---|
| PathNames.TrimStartQuotes | FilmsCatalog/Controllers/FilmsController.cs:92 | the result is a suffix of the input, what it drops is all quotes, and it does not start with a quote |
| PathNames.TrimEndQuotes | FilmsCatalog/Controllers/FilmsController.cs:92 | the result is a prefix of the input, what it drops is all quotes, and it does not end with a quote |
| PathNames.TrimQuotes | FilmsCatalog/Controllers/FilmsController.cs:92 | `Trim('"')` leaves a string that neither starts nor ends with a quote |
| PathNames.TrimQuotesUnquoted | FilmsCatalog/Controllers/FilmsController.cs:92 | trimming keeps a name that has no surrounding quotes |
| PathNames.TrimQuotesQuoted | FilmsCatalog/Controllers/FilmsController.cs:92 | trimming a quoted `filename="…"` value gives the bare name |
| PathNames.GetFileName | FilmsCatalog/Controllers/FilmsController.cs:92 | the result is the final path component: a suffix with no separator, preceded by a separator or by nothing |
| PathNames.FileNameIs | FilmsCatalog/Controllers/FilmsController.cs:92 | the file name is exactly the text after the last separator |
| PathNames.FinalComponentUnique | FilmsCatalog/Controllers/FilmsController.cs:92 | a path has only one final component |
| PathNames.GetExtension | FilmsCatalog/Controllers/FilmsController.cs:93 | a non-empty result is the suffix from a '.' that is not the last character and has no later '.' or separator; "" means the path has no such '.' |
| PathNames.ExtensionUnique | FilmsCatalog/Controllers/FilmsController.cs:93 | a path has at most one place where its extension starts |
| PathNames.ExtensionIs | FilmsCatalog/Controllers/FilmsController.cs:93 | the extension is exactly the suffix from its starting '.' |
| PathNames.GetExtensionShape | FilmsCatalog/Controllers/FilmsController.cs:93 | every extension is "" or a '.' followed by characters that are neither '.' nor separators |
| PathNames.AppendExtension | FilmsCatalog/Controllers/FilmsController.cs:112 | appending an extension-shaped suffix to any path makes it that path's extension |
| PathNames.ExtensionOfFileName | FilmsCatalog/Controllers/FilmsController.cs:92-93 | taking the file name first never changes the extension |
| Guids.HexDigits | FilmsCatalog/Controllers/FilmsController.cs:111 | the result has exactly `k` lower-case hexadecimal digits |
| Guids.HexValue | FilmsCatalog/Controllers/FilmsController.cs:111 | a string of `k` hexadecimal digits denotes a number below 16^k |
| Guids.HexRoundTrip | FilmsCatalog/Controllers/FilmsController.cs:111 | reading back the digits of a number that fits in `k` digits gives the number |
| Guids.Hex | FilmsCatalog/Controllers/FilmsController.cs:111 | `ToString("N")` has 32 hexadecimal digits |
| Guids.HexDecodes | FilmsCatalog/Controllers/FilmsController.cs:111 | a Guid can be recovered from its "N" string |
| Guids.HexInjective | FilmsCatalog/Controllers/FilmsController.cs:111 | two Guids have equal "N" strings exactly when they are equal |
| UserPermissions.CanEditFilm | FilmsCatalog/Services/UserPermissionsService.cs:24-32 | `None` (unauthenticated) is never allowed, and `Some(u)` is allowed exactly when `u` is the film's `creatorId`; the three lemmas below state the same rule as separate facts |
| UserPermissions.AnonymousCannotEdit | FilmsCatalog/Services/UserPermissionsService.cs:26-29 | an unauthenticated caller may edit no film |
| UserPermissions.OwnerMayEdit | FilmsCatalog/Services/UserPermissionsService.cs:24-32 | an authenticated caller may edit a film exactly when it is the film's creator |
| UserPermissions.DecisionDependsOnCreatorOnly | FilmsCatalog/Services/UserPermissionsService.cs:31 | the decision depends only on the caller and the film's creator id |
| Attachments.IsAllowedExtension | FilmsCatalog/Controllers/FilmsController.cs:22 | `AllowedExtensions.Contains`: an allowed extension is a '.' followed by three or four characters |
| Attachments.AllowedHasExtensionShape | FilmsCatalog/Controllers/FilmsController.cs:22 | every allowed extension has the extension shape (a '.' followed by characters that are neither '.' nor separators) and contains no separator |
| Attachments.AllowedIsLowerCase | FilmsCatalog/Controllers/FilmsController.cs:22 | every allowed extension contains no upper-case letter |
| Attachments.UpperCaseRefused | FilmsCatalog/Controllers/FilmsController.cs:94 | the allow-list is matched case-sensitively: any extension with an upper-case letter, such as `.JPG` or `.Png`, is refused |
| Attachments.UploadExtension | FilmsCatalog/Controllers/FilmsController.cs:92-93 | the extension checked for an upload is "" or a '.' followed by characters that are neither '.' nor separators |
| Attachments.StorageName | FilmsCatalog/Controllers/FilmsController.cs:111 | a storage name decodes back to its id (its first 32 characters are hexadecimal digits denoting the id) and to its extension (the rest) |
| Attachments.PublicPath | FilmsCatalog/Controllers/FilmsController.cs:112 | the last segment of the public path is the storage name written at line 111 (for an extension without separators), and its extension is the one it was built with (for an extension-shaped one) |
| Attachments.PosterFile | FilmsCatalog/Controllers/FilmsController.cs:242 | the file delete targets is named after the film's own id |
| Attachments.UploadExtensionIgnoresDirectory | FilmsCatalog/Controllers/FilmsController.cs:92-93 | the directory part of an upload name never affects the extension that is checked |
| Attachments.StorageNameInjective | FilmsCatalog/Controllers/FilmsController.cs:111 | two storage names are equal exactly when their ids and extensions are |
| Attachments.PosterFileOfPublicPath | FilmsCatalog/Controllers/FilmsController.cs:242 | delete derives the same storage name that create or edit wrote |
| Attachments.StorageNameNamedAfter | FilmsCatalog/Controllers/FilmsController.cs:111 | a storage name is named after the id it was built from and no other |
| Controllers.CheckPoster | FilmsCatalog/Controllers/FilmsController.cs:92-93 | a null poster or a header without a file name gives nothing (the dereference throws); otherwise `Checked` with the upload's bytes and, as its extension, `UploadExtension` of the file name |
| Controllers.Admitted | FilmsCatalog/Controllers/FilmsController.cs:99 | `ModelState.IsValid` after the extension check: an admitted upload has an extension-shaped extension without separators |
| Controllers.Editable | FilmsCatalog/Controllers/FilmsController.cs:168 | the guard of edit and delete: never for an anonymous caller or a missing id; when it holds, the film exists and the caller is its creator |
| Controllers.Rows | FilmsCatalog/Controllers/FilmsController.cs:46 | the rows in enumeration order: one per id, each the committed row for that id |
| Controllers.PageSlice | FilmsCatalog/Controllers/FilmsController.cs:47 | a page holds at most `pageSize` rows and is the run of rows starting at `start`; it is empty past the end and shorter only at the end |
| Controllers.EveryRowOnItsPage | FilmsCatalog/Controllers/FilmsController.cs:43-47 | every row appears on page `i / size + 1`, at position `i % size` |
| Controllers.StoredPosterFile | FilmsCatalog/Controllers/FilmsController.cs:242-243 | for a well-formed stored film, delete's name is the file that was written, and that file exists |
| Controllers.IssueKeepsOk | FilmsCatalog/Models/Film.cs:13 | issuing a new Guid keeps the catalog invariant |
| Controllers.WriteKeepsOk | FilmsCatalog/Controllers/FilmsController.cs:113-116 | writing a file named after an issued Guid keeps the catalog invariant |
| Controllers.PutKeepsOk | FilmsCatalog/Controllers/FilmsController.cs:118-119 | committing a well-formed film row keeps the catalog invariant |
| Controllers.RemoveKeepsOk | FilmsCatalog/Controllers/FilmsController.cs:242-245 | removing a row together with the file delete derives for it keeps the invariant, because no other film uses that file |
| Controllers.FilmsController.Index | FilmsCatalog/Controllers/FilmsController.cs:41-48 | page `page ?? 1` of 15 rows in enumeration order; a page number below 1 faults |
| Controllers.FilmsController.Details | FilmsCatalog/Controllers/FilmsController.cs:52-74 | an anonymous caller is challenged; a missing id or film gives NotFound; otherwise the film is shown with its edit permission |
| Controllers.FilmsController.Create | FilmsCatalog/Controllers/FilmsController.cs:89-124 | challenge, fault on a missing poster, the form back with the file-type error; when admitted, the poster is written under the new id and the row is added with its public path; only a successful save commits a row, and a failed save keeps the written file; the invariant holds afterwards; a fresh Guid never collides |
| Controllers.FilmsController.AddFilm | FilmsCatalog/Controllers/FilmsController.cs:101-120 | the new id is issued; a name collision changes nothing; otherwise the poster is written, then the row is committed or the save fails; the invariant holds afterwards |
| Controllers.FilmsController.WritePosterAndSave | FilmsCatalog/Controllers/FilmsController.cs:111-119 | a CreateNew collision changes nothing; otherwise the file is written and then the row is committed; with the invariant beforehand and an issued id, the invariant holds afterwards |
| Controllers.FilmsController.WritePoster | FilmsCatalog/Controllers/FilmsController.cs:113-116 | the new file holds the upload and nothing else changes; a name after an issued Guid keeps the invariant |
| Controllers.FilmsController.CommitRow | FilmsCatalog/Controllers/FilmsController.cs:118-119 | a successful save commits the row under its key and nothing else changes; a well-formed row keeps the invariant |
| Controllers.FilmsController.Edit | FilmsCatalog/Controllers/FilmsController.cs:128-151 | challenge; NotFound for a missing id or film or a non-owner; otherwise the form is filled from the film |
| Controllers.FilmsController.EditPost | FilmsCatalog/Controllers/FilmsController.cs:159-201 | NotFound before the upload is inspected; only the edited row changes, in its text fields and path and never its id or creator, and only on a successful save; files are never removed; when the invariant holds beforehand (the poster file exists), re-uploading with the current extension fails with `WriteFailed`; the invariant holds afterwards |
| Controllers.FilmsController.Delete | FilmsCatalog/Controllers/FilmsController.cs:205-221 | challenge; NotFound for a missing id or film or a non-owner; otherwise the confirmation page for the film |
| Controllers.FilmsController.DeleteConfirmed | FilmsCatalog/Controllers/FilmsController.cs:227-247 | NotFound changes nothing; otherwise the poster file is removed, then the row on a successful save; the invariant holds unless the save fails, and a failed save leaves the row without its file |
| Controllers.FilmsController.RemovePosterAndRow | FilmsCatalog/Controllers/FilmsController.cs:242-246 | the file delete derives is removed, then the row if the save succeeds; with a successful save the invariant holds afterwards |

## Left out

- Create GET (`FilmsController.cs:78-81`) only renders an empty form, and `FilmCreateViewModel` is not part of this model. The posted create form is taken to have the same fields as `FilmEditViewModel`.
- Page rendering, `ViewBag` apart from `permission`, anti-forgery tokens and model-binding internals. Binding validity is the `modelStateValid` parameter.
- Entity Framework. The table is a map from id to row, and the row order `Index` sees is the `order` parameter. `Include(f => f.Creator)` loads display data only.
- Asynchrony and concurrency. Each action is one atomic step, so the races between requests are not modelled.
- `ContentDispositionHeaderValue.Parse` is not modelled. An upload carries the parsed `filename` value, or `None` when there is none. Parse errors for malformed headers are not modelled.
- File I/O errors other than the `FileMode.CreateNew` collision are not modelled, and neither are partially written files. A write stores the whole upload.
- An authenticated caller without a user record gives a null `user` in Create and is not modelled.
- Null text fields are not distinguished from empty strings.
- `Path.Combine` with the web root is left out. Only the name under `attachments/` is modelled.
- PathNames.GetFileName: treats `/` and `\` as separators and does not special-case the volume separator `:` or check for invalid path characters.
- PathNames.GetExtension: same separator assumption as `GetFileName`.
- Controllers.FilmsController.Index: does not model X.PagedList's 32-bit arithmetic. Page numbers are unbounded integers, so an overflowing `(page - 1) * 15` is not modelled.
- Controllers.FilmsController.Create: requires that `newId` is no key of the table. `Guid.NewGuid()` gives no such guarantee, but `Create` proves no collision only for a Guid that was never issued.
