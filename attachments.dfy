/**
 * Poster naming in the controller: the extension allow-list, the extension
 * taken from an upload, and the storage name and public path derived from
 * a film's id (FilmsController.cs, lines 22, 92-93, 111-112, 188-189, 242).
 */
module Attachments {
  import opened Guids
  import opened PathNames
  import opened Models

  /** `AllowedExtensions`, matched exactly and case-sensitively. */
  const AllowedExtensions: set<string> := {".jpg", ".jpeg", ".png", ".gif"}

  /** `AllowedExtensions.Contains(ext)`: only a '.' and three or four more characters pass. */
  predicate IsAllowedExtension(ext: string)
    ensures IsAllowedExtension(ext) ==> 4 <= |ext| <= 5 && ext[0] == '.'
  {
    ext in AllowedExtensions
  }

  /** Every allowed extension is a '.' followed by characters that are
      neither '.' nor directory separators. */
  lemma AllowedHasExtensionShape(ext: string)
    requires IsAllowedExtension(ext)
    ensures IsExtensionShape(ext) && NoSeparator(ext)
  {
  }

  /** `Path.GetExtension(Path.GetFileName(fileName.Trim('"')))`. */
  function UploadExtension(fileName: string): (ext: string)
    ensures ext == "" || IsExtensionShape(ext)
  {
    GetExtension(GetFileName(TrimQuotes(fileName)))
  }

  /** The file name under `attachments/`: `id.ToString("N") + ext`. */
  function StorageName(id: Guid, ext: string): (name: string)
    ensures |name| >= HexLength && IsHexString(name[..HexLength])
    ensures HexValue(name[..HexLength]) == id && name[HexLength..] == ext
  {
    HexDecodes(id);
    Hex(id) + ext
  }

  /** The public poster path: `$"/attachments/{id:N}{ext}"`. */
  function PublicPath(id: Guid, ext: string): (path: string)
    ensures PointsAtStorage(path, id, ext)
  {
    AttachmentPathFileName(id, ext);
    AttachmentPathExtension(id, ext);
    "/attachments/" + StorageName(id, ext)
  }

  /** What a public path tells the delete action: its last segment is the
      storage name, and its extension is the one it was built with. */
  ghost predicate PointsAtStorage(path: string, id: Guid, ext: string) {
    (NoSeparator(ext) ==> GetFileName(path) == StorageName(id, ext)) &&
    (IsExtensionShape(ext) ==> GetExtension(path) == ext)
  }

  /** The storage name the delete action derives from a stored film (line 242). */
  function PosterFile(film: Film): (name: string)
    ensures |name| >= HexLength && IsHexString(name[..HexLength]) && HexValue(name[..HexLength]) == film.id
  {
    StorageName(film.id, GetExtension(film.path))
  }

  /** A storage name whose 32-digit prefix denotes one of the Guids in `issued`. */
  predicate NamedAfter(name: string, issued: set<Guid>) {
    |name| >= HexLength && IsHexString(name[..HexLength]) && HexValue(name[..HexLength]) in issued
  }

  // ---------------------------------------------------------------------

  /** Every allowed extension is lower case. */
  lemma AllowedIsLowerCase(ext: string)
    requires IsAllowedExtension(ext)
    ensures forall j :: 0 <= j < |ext| ==> !('A' <= ext[j] <= 'Z')
  {
  }

  /** Upload names are matched case-sensitively: an extension with any
      upper-case letter (".JPG", ".Png", ...) is refused. */
  lemma UpperCaseRefused(ext: string, j: int)
    requires 0 <= j < |ext| && 'A' <= ext[j] <= 'Z'
    ensures !IsAllowedExtension(ext)
  {
    if IsAllowedExtension(ext) {
      AllowedIsLowerCase(ext);
    }
  }

  /** The directory part of an upload name never affects its extension. */
  lemma UploadExtensionIgnoresDirectory(fileName: string)
    ensures UploadExtension(fileName) == GetExtension(TrimQuotes(fileName))
  {
    ExtensionOfFileName(TrimQuotes(fileName));
  }

  /** The storage name determines both the id and the extension. */
  lemma StorageNameInjective(a: Guid, extA: string, b: Guid, extB: string)
    ensures StorageName(a, extA) == StorageName(b, extB) <==> a == b && extA == extB
  {
    if StorageName(a, extA) == StorageName(b, extB) {
      assert StorageName(a, extA)[..HexLength] == Hex(a);
      assert StorageName(b, extB)[..HexLength] == Hex(b);
      HexInjective(a, b);
      assert StorageName(a, extA)[HexLength..] == extA;
      assert StorageName(b, extB)[HexLength..] == extB;
    }
  }

  /** The storage name is the last segment of its attachment path. */
  lemma AttachmentPathFileName(id: Guid, ext: string)
    ensures NoSeparator(ext) ==> GetFileName("/attachments/" + StorageName(id, ext)) == StorageName(id, ext)
  {
    if NoSeparator(ext) {
      var h := Hex(id);
      var p := "/attachments/" + (h + ext);
      assert p[13..] == h + ext;
      forall j | 0 <= j < |h + ext| ensures !IsDirectorySeparator((h + ext)[j]) {
        if j < |h| {
          assert (h + ext)[j] == h[j];
        } else {
          assert (h + ext)[j] == ext[j - |h|];
        }
      }
      assert FinalComponentAt(p, 13);
      FileNameIs(p, 13);
    }
  }

  /** An extension-shaped suffix is the extension of its attachment path. */
  lemma AttachmentPathExtension(id: Guid, ext: string)
    ensures IsExtensionShape(ext) ==> GetExtension("/attachments/" + StorageName(id, ext)) == ext
  {
    if IsExtensionShape(ext) {
      assert "/attachments/" + StorageName(id, ext) == ("/attachments/" + Hex(id)) + ext;
      AppendExtension("/attachments/" + Hex(id), ext);
    }
  }

  /** A film whose path was built by create or edit has its poster under the
      storage name it was written to. */
  lemma PosterFileOfPublicPath(film: Film, ext: string)
    requires IsExtensionShape(ext) && film.path == PublicPath(film.id, ext)
    ensures PosterFile(film) == StorageName(film.id, ext)
  {
  }

  /** A storage name is named after the id it was built from, and after no other. */
  lemma StorageNameNamedAfter(id: Guid, ext: string, issued: set<Guid>)
    ensures NamedAfter(StorageName(id, ext), issued) <==> id in issued
  {
    assert StorageName(id, ext)[..HexLength] == Hex(id);
    HexDecodes(id);
  }
}
