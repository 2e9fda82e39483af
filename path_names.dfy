/**
 * The three .NET string and path operations the controller applies to an
 * uploaded file name: `String.Trim('"')`, `Path.GetFileName` and
 * `Path.GetExtension`. They are library code, so each is written here after
 * its documented behaviour, as a scan of the string, and characterised by
 * its contract. Both `/` and `\` count as directory separators (the Windows
 * behaviour; the volume separator `:` is not treated specially).
 */
module PathNames {

  predicate IsDirectorySeparator(c: char) {
    c == '/' || c == '\\'
  }

  predicate NoSeparator(s: string) {
    forall j :: 0 <= j < |s| ==> !IsDirectorySeparator(s[j])
  }

  // ---------------------------------------------------------------------
  // String.Trim('"'): remove every leading and every trailing '"'.
  // ---------------------------------------------------------------------

  predicate AllQuotes(s: string) {
    forall j :: 0 <= j < |s| ==> s[j] == '"'
  }

  /** `r` is `s` without its leading run of quotes. */
  ghost predicate IsTrimStartOf(s: string, r: string) {
    |r| <= |s| && r == s[|s| - |r|..] && AllQuotes(s[..|s| - |r|]) && (r == "" || r[0] != '"')
  }

  /** Drops the leading run of '"' characters. */
  function TrimStartQuotes(s: string): (r: string)
    ensures IsTrimStartOf(s, r)
  {
    if s != [] && s[0] == '"' then TrimStartQuotes(s[1..]) else s
  }

  /** `r` is `s` without its trailing run of quotes. */
  ghost predicate IsTrimEndOf(s: string, r: string) {
    |r| <= |s| && r == s[..|r|] && AllQuotes(s[|r|..]) && (r == "" || r[|r| - 1] != '"')
  }

  /** Drops the trailing run of '"' characters. */
  function TrimEndQuotes(s: string): (r: string)
    ensures IsTrimEndOf(s, r)
  {
    if s != [] && s[|s| - 1] == '"' then TrimEndQuotes(s[..|s| - 1]) else s
  }

  /** `s.Trim('"')`: the part of `s` left between its leading and trailing quotes. */
  function TrimQuotes(s: string): (r: string)
    ensures r == "" || (r[0] != '"' && r[|r| - 1] != '"')
  {
    TrimEndQuotes(TrimStartQuotes(s))
  }

  /** Trimming keeps a name that neither starts nor ends with a quote. */
  lemma TrimQuotesUnquoted(s: string)
    requires s == "" || (s[0] != '"' && s[|s| - 1] != '"')
    ensures TrimQuotes(s) == s
  {
  }

  /** Trimming removes one pair of surrounding quotes (as in `filename="a.jpg"`). */
  lemma {:induction false} TrimQuotesQuoted(s: string)
    requires s == "" || (s[0] != '"' && s[|s| - 1] != '"')
    ensures TrimQuotes("\"" + s + "\"") == s
  {
    var q := "\"" + s + "\"";
    if s == "" {
      assert TrimStartQuotes(q) == TrimStartQuotes(q[1..]) == TrimStartQuotes("") == "";
    } else {
      assert q[1..] == s + "\"";
      assert TrimStartQuotes(q) == s + "\"";
      assert (s + "\"")[..|s|] == s;
    }
  }

  // ---------------------------------------------------------------------
  // Path.GetFileName: the characters after the last directory separator.
  // ---------------------------------------------------------------------

  /** The final path component of `path` starts at index `start`. */
  predicate FinalComponentAt(path: string, start: nat) {
    start <= |path| && NoSeparator(path[start..]) &&
    (start == 0 || IsDirectorySeparator(path[start - 1]))
  }

  /** `name` is the final component of `path`. */
  ghost predicate IsFileNameOf(path: string, name: string) {
    |name| <= |path| && FinalComponentAt(path, |path| - |name|) && name == path[|path| - |name|..]
  }

  function FileNameScan(path: string, i: nat): (name: string)
    requires i <= |path| && NoSeparator(path[i..])
    ensures IsFileNameOf(path, name)
    decreases i
  {
    if i == 0 then path
    else if IsDirectorySeparator(path[i - 1]) then path[i..]
    else
      assert path[i - 1..] == [path[i - 1]] + path[i..];
      FileNameScan(path, i - 1)
  }

  /** `Path.GetFileName(path)`. */
  function GetFileName(path: string): (name: string)
    ensures IsFileNameOf(path, name)
  {
    FileNameScan(path, |path|)
  }

  /** A path has exactly one final component. */
  lemma FinalComponentUnique(path: string, a: nat, b: nat)
    requires FinalComponentAt(path, a) && FinalComponentAt(path, b)
    ensures a == b
  {

  }

  /** After a separator at `start - 1`, with none later, the file name is `path[start..]`. */
  lemma FileNameIs(path: string, start: nat)
    requires FinalComponentAt(path, start)
    ensures GetFileName(path) == path[start..]
  {
    var name := GetFileName(path);
    FinalComponentUnique(path, start, |path| - |name|);
  }

  // ---------------------------------------------------------------------
  // Path.GetExtension: the suffix from the last '.', or "" when there is no
  // '.' in the final component or when the '.' is the last character.
  // ---------------------------------------------------------------------

  /** The extension of `path` starts at index `k`: a '.' that is not last,
      followed by no other '.' and no directory separator. */
  predicate ExtensionAt(path: string, k: int) {
    0 <= k < |path| - 1 && path[k] == '.' &&
    forall j :: k < j < |path| ==> path[j] != '.' && !IsDirectorySeparator(path[j])
  }

  /** `ext` is the extension of `path`: the suffix from its extension start,
      or "" when it has none. */
  ghost predicate IsExtensionOf(path: string, ext: string) {
    (ext != "" ==> |ext| <= |path| && ExtensionAt(path, |path| - |ext|) && ext == path[|path| - |ext|..]) &&
    (ext == "" ==> forall k :: !ExtensionAt(path, k))
  }

  function ExtensionScan(path: string, i: nat): (ext: string)
    requires i <= |path|
    requires forall j :: i <= j < |path| ==> path[j] != '.' && !IsDirectorySeparator(path[j])
    ensures IsExtensionOf(path, ext)
    decreases i
  {
    if i == 0 then ""
    else if path[i - 1] == '.' then (if i == |path| then "" else path[i - 1..])
    else if IsDirectorySeparator(path[i - 1]) then ""
    else ExtensionScan(path, i - 1)
  }

  /** `Path.GetExtension(path)`. */
  function GetExtension(path: string): (ext: string)
    ensures IsExtensionOf(path, ext)
  {
    ExtensionScan(path, |path|)
  }

  /** A path has at most one extension start. */
  lemma ExtensionUnique(path: string, a: int, b: int)
    requires ExtensionAt(path, a) && ExtensionAt(path, b)
    ensures a == b
  {
  }

  /** The extension is exactly the suffix from its start. */
  lemma ExtensionIs(path: string, k: int)
    requires ExtensionAt(path, k)
    ensures GetExtension(path) == path[k..]
  {
    var ext := GetExtension(path);
    ExtensionUnique(path, k, |path| - |ext|);
  }

  /** A shape every non-empty extension has: '.', then at least one
      character, none of them a '.' or a separator. */
  predicate IsExtensionShape(ext: string) {
    ExtensionAt(ext, 0)
  }

  /** Every non-empty result of GetExtension has the extension shape. */
  lemma GetExtensionShape(path: string)
    ensures GetExtension(path) == "" || IsExtensionShape(GetExtension(path))
  {
  }

  /** Appending an extension-shaped suffix to any path makes it the path's extension. */
  lemma AppendExtension(prefix: string, ext: string)
    requires IsExtensionShape(ext)
    ensures GetExtension(prefix + ext) == ext
  {
    var p := prefix + ext;
    forall j | |prefix| < j < |p| ensures p[j] == ext[j - |prefix|] { }
    assert ExtensionAt(p, |prefix|);
    ExtensionIs(p, |prefix|);
    assert p[|prefix|..] == ext;
  }

  /** Taking the file name first does not change the extension: an extension
      never reaches past a directory separator. */
  lemma ExtensionOfFileName(path: string)
    ensures GetExtension(GetFileName(path)) == GetExtension(path)
  {
    var name := GetFileName(path);
    var s := |path| - |name|;
    var ext := GetExtension(path);
    if ext != "" {
      var k := |path| - |ext|;
      assert ExtensionAt(name, k - s) by {
        forall j | k - s < j < |name| ensures name[j] == path[j + s] { }
      }
      ExtensionIs(name, k - s);
      assert name[k - s..] == path[k..];
    } else {
      forall m | ExtensionAt(name, m) ensures ExtensionAt(path, m + s) {
        forall j | m + s < j < |path| ensures path[j] == name[j - s] { }
      }
    }
  }
}
