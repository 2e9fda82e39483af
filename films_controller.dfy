/**
 * `FilmsController`: the catalog actions as transitions over the committed
 * Films rows (`films`) and the files under `attachments/` (`files`).
 *
 * Each action runs its steps in the source's order and returns at the same
 * points. `[Authorize]` answers an anonymous request with `Challenge` before
 * the action runs. The outcome of `SaveChangesAsync` and the model-binding
 * validity of the posted form are parameters, and so is the fresh Guid a
 * new `Film` receives.
 */
module Controllers {
  import opened Wrappers
  import opened Guids
  import opened PathNames
  import opened Models
  import opened UserPermissions
  import opened Attachments

  datatype Outcome =
    | Challenge                                  // [Authorize] turned an anonymous request away
    | NotFound
    | ShowIndex(pageNumber: int, pageSize: int, items: seq<Film>)
    | ShowDetails(film: Film, permission: bool)  // permission is ViewBag.permission
    | ShowEditForm(name: string, description: string, year: string, producer: string)
    | ShowDeleteConfirmation(film: Film)
    | ReturnForm(fileTypeProhibited: bool)       // the posted form again, with its errors
    | Redirect                                   // RedirectToAction("Index")
    | WriteFailed                                // FileMode.CreateNew met an existing file
    | SaveFailed                                 // SaveChangesAsync threw
    | Fault                                      // any other unhandled exception

  /** What the action learns from the posted poster (lines 92-93, 173-174):
      nothing when `model.Poster` is null or its header has no file name
      (the dereference throws), otherwise the extension and the bytes. */
  datatype PosterCheck = MissingPoster | Checked(ext: string, content: Bytes)

  function CheckPoster(form: FilmForm): (check: PosterCheck)
    ensures check.MissingPoster? <==> form.poster.None? || form.poster.value.fileName.None?
    ensures check.Checked? ==> check.content == form.poster.value.content &&
                               check.ext == UploadExtension(form.poster.value.fileName.value)
  {
    if form.poster.None? || form.poster.value.fileName.None? then MissingPoster
    else Checked(UploadExtension(form.poster.value.fileName.value), form.poster.value.content)
  }

  /** `ModelState.IsValid` after the extension check. */
  predicate Admitted(check: PosterCheck, modelStateValid: bool)
    ensures Admitted(check, modelStateValid) ==> check.Checked? && IsExtensionShape(check.ext) && NoSeparator(check.ext)
  {
    check.Checked? && modelStateValid && IsAllowedExtension(check.ext)
  }

  /** The film the request names exists and the caller may edit it. */
  predicate Editable(caller: Option<UserId>, id: Option<Guid>, films: map<Guid, Film>)
    ensures caller.None? || id.None? ==> !Editable(caller, id, films)
    ensures Editable(caller, id, films) ==> id.value in films && films[id.value].creatorId == caller.value
  {
    id.Some? && id.value in films && CanEditFilm(caller, films[id.value])
  }

  /** The committed rows of `ids`, in that order. */
  function Rows(films: map<Guid, Film>, ids: seq<Guid>): (rows: seq<Film>)
    requires forall i :: 0 <= i < |ids| ==> ids[i] in films
    ensures |rows| == |ids|
    ensures forall i :: 0 <= i < |ids| ==> rows[i] == films[ids[i]]
  {
    if ids == [] then [] else [films[ids[0]]] + Rows(films, ids[1..])
  }

  /** The page of at most `pageSize` rows starting at row `start`:
      Skip(start).Take(pageSize). */
  function PageSlice<T>(rows: seq<T>, start: nat, pageSize: nat): (page: seq<T>)
    ensures |page| <= pageSize
    ensures start >= |rows| ==> page == []
    ensures start < |rows| ==> |page| == (if |rows| - start < pageSize then |rows| - start else pageSize)
    ensures forall i :: 0 <= i < |page| ==> start + i < |rows| && page[i] == rows[start + i]
  {
    if start >= |rows| then []
    else if |rows| - start < pageSize then rows[start..]
    else rows[start..start + pageSize]
  }

  /** The first row of page `pageNumber` (from 1). */
  function PageStart(pageNumber: int, pageSize: nat): (start: nat)
    requires pageNumber >= 1
    ensures pageNumber == 1 ==> start == 0
  {
    (pageNumber - 1) * pageSize
  }

  /** Every row is on page `i / size + 1`, at position `i % size`. */
  lemma EveryRowOnItsPage<T>(rows: seq<T>, i: nat, pageSize: nat)
    requires i < |rows| && pageSize >= 1
    ensures var page := PageSlice(rows, PageStart(i / pageSize + 1, pageSize), pageSize);
      i % pageSize < |page| && page[i % pageSize] == rows[i]
  {
    assert PageStart(i / pageSize + 1, pageSize) + i % pageSize == i;
  }

  /** A stored film is well formed: keyed by its id, its public path built
      from the allowed extension `ext`, and its poster file present. */
  ghost predicate StoredFilmOk(key: Guid, film: Film, ext: string, files: map<string, Bytes>) {
    film.id == key &&
    IsAllowedExtension(ext) &&
    IsExtensionShape(ext) &&    // follows from the line above; stated for the solver
    film.path == PublicPath(key, ext) &&
    StorageName(key, ext) in files
  }

  /** The delete action finds a well-formed film's poster file. */
  lemma StoredPosterFile(key: Guid, film: Film, ext: string, files: map<string, Bytes>)
    requires StoredFilmOk(key, film, ext, files)
    ensures GetExtension(film.path) == ext
    ensures PosterFile(film) == StorageName(key, ext) && PosterFile(film) in files
  {
    PosterFileOfPublicPath(film, ext);
  }

  /** The catalog invariant over the committed rows, the files and the Guids
      issued so far: every stored film has its poster file, and every file is
      named after an issued Guid. (Orphan files are allowed: edit leaves them.) */
  ghost predicate CatalogOk(films: map<Guid, Film>, files: map<string, Bytes>, issued: set<Guid>,
                            exts: map<Guid, string>) {
    (forall k :: k in films ==> k in issued && k in exts && StoredFilmOk(k, films[k], exts[k], files)) &&
    (forall name :: name in files ==> NamedAfter(name, issued))
  }

  lemma IssueKeepsOk(films: map<Guid, Film>, files: map<string, Bytes>, issued: set<Guid>,
                     exts: map<Guid, string>, g: Guid)
    ensures CatalogOk(films, files, issued, exts) ==> CatalogOk(films, files, issued + {g}, exts)
  {
    if CatalogOk(films, files, issued, exts) {
      forall name | name in files ensures NamedAfter(name, issued + {g}) {
        assert NamedAfter(name, issued);
      }
    }
  }

  /** Writing a file named after an issued Guid keeps the invariant. */
  lemma WriteKeepsOk(films: map<Guid, Film>, files: map<string, Bytes>, issued: set<Guid>,
                     exts: map<Guid, string>, name: string, content: Bytes)
    ensures CatalogOk(films, files, issued, exts) && NamedAfter(name, issued) ==>
      CatalogOk(films, files[name := content], issued, exts)
  {
    if CatalogOk(films, files, issued, exts) {
      forall k | k in films ensures StoredFilmOk(k, films[k], exts[k], files[name := content]) {
        assert StoredFilmOk(k, films[k], exts[k], files);
      }
    }
  }

  /** Storing a well-formed film (new or replacing its own row) keeps the invariant. */
  lemma PutKeepsOk(films: map<Guid, Film>, files: map<string, Bytes>, issued: set<Guid>,
                   exts: map<Guid, string>, film: Film, ext: string)
    ensures CatalogOk(films, files, issued, exts) && film.id in issued && StoredFilmOk(film.id, film, ext, files) ==>
      CatalogOk(films[film.id := film], files, issued, exts[film.id := ext])
  {
  }

  /** Removing a row together with its poster file keeps the invariant: no
      other film shares that file. */
  lemma RemoveKeepsOk(films: map<Guid, Film>, files: map<string, Bytes>, issued: set<Guid>,
                      exts: map<Guid, string>, key: Guid)
    requires key in films
    ensures CatalogOk(films, files, issued, exts) ==>
      CatalogOk(films - {key}, files - {PosterFile(films[key])}, issued, exts - {key})
  {
    if CatalogOk(films, files, issued, exts) {
      StoredPosterFile(key, films[key], exts[key], files);
      var films', files', exts' := films - {key}, files - {StorageName(key, exts[key])}, exts - {key};
      forall k | k in films' ensures StoredFilmOk(k, films'[k], exts'[k], files') {
        assert StoredFilmOk(k, films[k], exts[k], files);
        StorageNameInjective(k, exts[k], key, exts[key]);
      }
    }
  }

  class FilmsController {
    /** The committed rows of the Films table, by Id. */
    var films: map<Guid, Film>
    /** The files under wwwroot/attachments, by name. */
    var files: map<string, Bytes>
    /** Every Guid a new Film has received so far. */
    ghost var issued: set<Guid>
    /** The extension each stored film's poster was written with. */
    ghost var posterExt: map<Guid, string>

    ghost predicate Valid()
      reads this
    {
      CatalogOk(films, files, issued, posterExt)
    }

    constructor ()
      ensures Valid() && films == map[] && files == map[] && issued == {}
    {
      films := map[];
      files := map[];
      issued := {};
      posterExt := map[];
    }

    /** GET Films: page `page ?? 1` of 15 rows, in the order the database
        enumerates them (`order`). */
    method Index(page: Option<int>, order: seq<Guid>) returns (outcome: Outcome)
      requires forall i :: 0 <= i < |order| ==> order[i] in films
      requires forall k :: k in films ==> k in order
      requires forall i, j :: 0 <= i < j < |order| ==> order[i] != order[j]
      ensures page.GetOr(1) < 1 ==> outcome == Fault
      ensures page.GetOr(1) >= 1 ==>
        outcome == ShowIndex(page.GetOr(1), 15, PageSlice(Rows(films, order), PageStart(page.GetOr(1), 15), 15))
    {
      var pageSize := 15;
      var pageNumber := page.GetOr(1);
      if pageNumber < 1 {
        // X.PagedList refuses a page number below 1
        return Fault;
      }
      outcome := ShowIndex(pageNumber, pageSize, PageSlice(Rows(films, order), PageStart(pageNumber, pageSize), pageSize));
    }

    /** GET Films/Details/id: the film and whether the caller may edit it. */
    method Details(caller: Option<UserId>, id: Option<Guid>) returns (outcome: Outcome)
      ensures caller.None? ==> outcome == Challenge
      ensures caller.Some? && (id.None? || id.value !in films) ==> outcome == NotFound
      ensures caller.Some? && id.Some? && id.value in films ==>
        outcome == ShowDetails(films[id.value], CanEditFilm(caller, films[id.value]))
    {
      if caller.None? {
        return Challenge;
      }
      if id.None? || id.value !in films {
        return NotFound;
      }
      var film := films[id.value];
      outcome := ShowDetails(film, CanEditFilm(caller, film));
    }

    /** Lines 111-119 and 188-196, shared by create and edit: derive the
        poster's storage name and public path from the film's id, write the
        file with FileMode.CreateNew, then commit the row under `key`. */
    method WritePosterAndSave(key: Guid, film: Film, ext: string, content: Bytes, saved: bool)
      returns (outcome: Outcome, stored: Film)
      requires IsAllowedExtension(ext)
      modifies this
      ensures stored == film.(path := PublicPath(film.id, ext))
      ensures StorageName(film.id, ext) in old(files) ==>
        outcome == WriteFailed && films == old(films) && files == old(files)
      ensures StorageName(film.id, ext) !in old(files) ==>
        files == old(files)[StorageName(film.id, ext) := content] &&
        (saved ==> outcome == Redirect && films == old(films)[key := stored]) &&
        (!saved ==> outcome == SaveFailed && films == old(films))
      ensures issued == old(issued)
      ensures old(Valid()) && key == film.id && key in issued ==> Valid()
    {
      var posterPath := StorageName(film.id, ext);
      stored := film.(path := PublicPath(film.id, ext));
      if posterPath in files {
        return WriteFailed, stored;
      }
      StorageNameNamedAfter(film.id, ext, issued);
      WritePoster(posterPath, content);
      if !saved {
        return SaveFailed, stored;
      }
      CommitRow(key, stored, ext);
      outcome := Redirect;
    }

    /** The CopyToAsync into the new file: `name` now holds `content`. */
    method WritePoster(name: string, content: Bytes)
      modifies this
      ensures files == old(files)[name := content] && films == old(films) && issued == old(issued)
      ensures old(Valid()) && NamedAfter(name, issued) ==> Valid()
    {
      WriteKeepsOk(films, files, issued, posterExt, name, content);
      files := files[name := content];
    }

    /** A successful SaveChangesAsync: the row is committed under `key`. */
    method CommitRow(key: Guid, film: Film, ext: string)
      requires IsAllowedExtension(ext)
      modifies this
      ensures films == old(films)[key := film] && files == old(files) && issued == old(issued)
      ensures old(Valid()) && key == film.id && key in issued &&
              film.path == PublicPath(key, ext) && StorageName(key, ext) in files
              ==> Valid()
    {
      AllowedHasExtensionShape(ext);
      PutKeepsOk(films, files, issued, posterExt, film, ext);
      films := films[key := film];
      posterExt := posterExt[key := ext];
    }

    /** POST Films/Create. */
    method Create(caller: Option<UserId>, form: FilmForm, modelStateValid: bool, newId: Guid, saved: bool)
      returns (outcome: Outcome)
      requires newId !in films
      modifies this
      ensures caller.None? ==> outcome == Challenge
      ensures caller.Some? && CheckPoster(form).MissingPoster? ==> outcome == Fault
      ensures caller.Some? && CheckPoster(form).Checked? && !Admitted(CheckPoster(form), modelStateValid) ==>
        outcome == ReturnForm(!IsAllowedExtension(CheckPoster(form).ext))
      ensures !outcome.Redirect? ==> films == old(films)
      ensures !outcome.Redirect? && !outcome.SaveFailed? ==> files == old(files)
      ensures caller.Some? && Admitted(CheckPoster(form), modelStateValid) ==>
        var name := StorageName(newId, CheckPoster(form).ext);
        (name in old(files) ==> outcome == WriteFailed) &&
        (name !in old(files) ==> files == old(files)[name := CheckPoster(form).content] &&
                                 outcome == (if saved then Redirect else SaveFailed))
      ensures outcome == Redirect ==>
        films == old(films)[newId := Film(newId, caller.value, form.name, form.description, form.year,
                                            form.producer, PublicPath(newId, CheckPoster(form).ext))]
      ensures issued == if caller.Some? && Admitted(CheckPoster(form), modelStateValid)
                        then old(issued) + {newId} else old(issued)
      ensures old(Valid()) ==> Valid()
      // a Guid never issued before cannot collide with a stored file
      ensures old(Valid()) && newId !in old(issued) ==> outcome != WriteFailed
    {
      if caller.None? {
        return Challenge;
      }
      var check := CheckPoster(form);
      if check.MissingPoster? {
        return Fault;
      }
      var prohibited := !IsAllowedExtension(check.ext);
      if !modelStateValid || prohibited {
        return ReturnForm(prohibited);
      }
      outcome := AddFilm(newId, caller.value, form, check.ext, check.content, saved);
    }

    /** Lines 101-120: a fresh id is issued, the poster is written under it
        and the new row is committed with the poster's public path. */
    method AddFilm(newId: Guid, creator: UserId, form: FilmForm, ext: string, content: Bytes, saved: bool)
      returns (outcome: Outcome)
      requires newId !in films
      requires IsAllowedExtension(ext)
      modifies this
      ensures var name := StorageName(newId, ext);
        (name in old(files) ==> outcome == WriteFailed && films == old(films) && files == old(files)) &&
        (name !in old(files) ==> files == old(files)[name := content] &&
                                 outcome == (if saved then Redirect else SaveFailed))
      ensures outcome == Redirect ==>
        films == old(films)[newId := Film(newId, creator, form.name, form.description, form.year,
                                            form.producer, PublicPath(newId, ext))]
      ensures outcome != Redirect ==> films == old(films)
      ensures issued == old(issued) + {newId}
      ensures old(Valid()) ==> Valid()
      ensures old(Valid()) && newId !in old(issued) ==> outcome != WriteFailed
    {
      var film := Film(newId, creator, form.name, form.description, form.year, form.producer, "");
      IssueKeepsOk(films, files, issued, posterExt, newId);
      StorageNameNamedAfter(newId, ext, issued);
      assert Valid() && newId !in issued ==> StorageName(newId, ext) !in files;
      issued := issued + {newId};
      var stored;
      outcome, stored := WritePosterAndSave(newId, film, ext, content, saved);
    }

    /** GET Films/Edit/id: the edit form, filled in from the film. */
    method Edit(caller: Option<UserId>, id: Option<Guid>) returns (outcome: Outcome)
      ensures caller.None? ==> outcome == Challenge
      ensures caller.Some? && !Editable(caller, id, films) ==> outcome == NotFound
      ensures caller.Some? && Editable(caller, id, films) ==>
        var film := films[id.value];
        outcome == ShowEditForm(film.name, film.description, film.year, film.producer)
    {
      if caller.None? {
        return Challenge;
      }
      if id.None? {
        return NotFound;
      }
      if id.value !in films || !CanEditFilm(caller, films[id.value]) {
        return NotFound;
      }
      var film := films[id.value];
      outcome := ShowEditForm(film.name, film.description, film.year, film.producer);
    }

    /** POST Films/Edit/id. */
    method EditPost(caller: Option<UserId>, id: Option<Guid>, form: FilmForm, modelStateValid: bool, saved: bool)
      returns (outcome: Outcome)
      modifies this
      ensures caller.None? ==> outcome == Challenge
      ensures caller.Some? && !Editable(caller, id, old(films)) ==> outcome == NotFound
      ensures caller.Some? && Editable(caller, id, old(films)) && CheckPoster(form).MissingPoster? ==>
        outcome == Fault
      ensures caller.Some? && Editable(caller, id, old(films)) && CheckPoster(form).Checked? &&
              !Admitted(CheckPoster(form), modelStateValid) ==>
        outcome == ReturnForm(!IsAllowedExtension(CheckPoster(form).ext))
      ensures !outcome.Redirect? ==> films == old(films)
      ensures !outcome.Redirect? && !outcome.SaveFailed? ==> files == old(files)
      ensures caller.Some? && Editable(caller, id, old(films)) && Admitted(CheckPoster(form), modelStateValid) ==>
        var name := StorageName(old(films)[id.value].id, CheckPoster(form).ext);
        (name in old(files) ==> outcome == WriteFailed) &&
        (name !in old(files) ==> files == old(files)[name := CheckPoster(form).content] &&
                                 outcome == (if saved then Redirect else SaveFailed))
      // only the edited row changes: its text fields and its path, never its id or creator
      ensures outcome == Redirect ==>
        var was := old(films)[id.value];
        films == old(films)[id.value := was.(name := form.name, description := form.description,
                                               year := form.year, producer := form.producer,
                                               path := PublicPath(was.id, CheckPoster(form).ext))]
      ensures old(files).Keys <= files.Keys
      // as written, re-uploading a poster with the current extension always collides
      ensures old(Valid()) && caller.Some? && Editable(caller, id, old(films)) &&
              Admitted(CheckPoster(form), modelStateValid) &&
              CheckPoster(form).ext == GetExtension(old(films)[id.value].path) ==>
        outcome == WriteFailed
      ensures issued == old(issued)
      ensures old(Valid()) ==> Valid()
    {
      if caller.None? {
        return Challenge;
      }
      if id.None? {
        return NotFound;
      }
      if id.value !in films || !CanEditFilm(caller, films[id.value]) {
        return NotFound;
      }
      var film := films[id.value];
      var check := CheckPoster(form);
      if check.MissingPoster? {
        return Fault;
      }
      var prohibited := !IsAllowedExtension(check.ext);
      if !modelStateValid || prohibited {
        return ReturnForm(prohibited);
      }
      film := film.(name := form.name);
      film := film.(description := form.description);
      film := film.(year := form.year);
      film := film.(producer := form.producer);
      // model.Poster is not null here: it was dereferenced above
      if Valid() {
        StoredPosterFile(id.value, films[id.value], posterExt[id.value], files);
      }
      var stored;
      outcome, stored := WritePosterAndSave(id.value, film, check.ext, check.content, saved);
    }

    /** GET Films/Delete/id: the confirmation page. */
    method Delete(caller: Option<UserId>, id: Option<Guid>) returns (outcome: Outcome)
      ensures caller.None? ==> outcome == Challenge
      ensures caller.Some? && !Editable(caller, id, films) ==> outcome == NotFound
      ensures caller.Some? && Editable(caller, id, films) ==> outcome == ShowDeleteConfirmation(films[id.value])
    {
      if caller.None? {
        return Challenge;
      }
      if id.None? {
        return NotFound;
      }
      if id.value !in films || !CanEditFilm(caller, films[id.value]) {
        return NotFound;
      }
      outcome := ShowDeleteConfirmation(films[id.value]);
    }

    /** Lines 242-246: delete the poster file named after the film's id and
        the extension of its path (no error when it is absent), then remove
        the row and save. */
    method RemovePosterAndRow(key: Guid, saved: bool) returns (outcome: Outcome)
      requires key in films
      modifies this
      ensures files == old(files) - {PosterFile(old(films)[key])}
      ensures saved ==> outcome == Redirect && films == old(films) - {key}
      ensures !saved ==> outcome == SaveFailed && films == old(films)
      ensures issued == old(issued)
      ensures old(Valid()) && saved ==> Valid()
    {
      var film := films[key];
      var posterPath := PosterFile(film);
      RemoveKeepsOk(films, files, issued, posterExt, key);
      files := files - {posterPath};
      if !saved {
        return SaveFailed;
      }
      films := films - {key};
      posterExt := posterExt - {key};
      outcome := Redirect;
    }

    /** POST Films/Delete/id: remove the poster file, then the row. */
    method DeleteConfirmed(caller: Option<UserId>, id: Option<Guid>, saved: bool) returns (outcome: Outcome)
      modifies this
      ensures caller.None? ==> outcome == Challenge
      ensures caller.Some? && !Editable(caller, id, old(films)) ==> outcome == NotFound
      ensures !Editable(caller, id, old(films)) ==> films == old(films) && files == old(files)
      ensures caller.Some? && Editable(caller, id, old(films)) ==>
        files == old(files) - {PosterFile(old(films)[id.value])} &&
        (saved ==> outcome == Redirect && films == old(films) - {id.value}) &&
        (!saved ==> outcome == SaveFailed && films == old(films))
      ensures issued == old(issued)
      ensures old(Valid()) && outcome != SaveFailed ==> Valid()
      // with no rollback, a failed save leaves the row without its poster file
      ensures outcome == SaveFailed ==> id.value in films && PosterFile(films[id.value]) !in files
    {
      if caller.None? {
        return Challenge;
      }
      if id.None? {
        return NotFound;
      }
      if id.value !in films || !CanEditFilm(caller, films[id.value]) {
        return NotFound;
      }
      outcome := RemovePosterAndRow(id.value, saved);
    }
  }
}
