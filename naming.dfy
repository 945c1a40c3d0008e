/**
 * The name splitting that collision renaming relies on: `Path.GetFileName`,
 * `Path.GetFileNameWithoutExtension` and `Path.GetExtension` of .NET on a Unix
 * host, and the renamed blob name `<stem>_<guid><ext>`.
 */
module Naming {

  import opened Common

  /** `Path.DirectorySeparatorChar` (and `AltDirectorySeparatorChar`) on Unix. */
  const DirectorySeparator: char := '/'

  /** The position of the last `c` in `s`, if there is one. */
  function LastIndexOf(s: string, c: char): (r: Option<nat>)
    ensures r.Some? ==> r.value < |s| && s[r.value] == c && c !in s[r.value + 1..]
    ensures r.None? ==> c !in s
  {
    if s == [] then None
    else if s[|s| - 1] == c then Some(|s| - 1)
    else
      var init := s[..|s| - 1];
      var r := LastIndexOf(init, c);
      assert s == init + [s[|s| - 1]];
      assert r.Some? ==> s[r.value + 1..] == init[r.value + 1..] + [s[|s| - 1]];
      r
  }

  /** A `c` at `i` with none after it is the last one. */
  lemma LastIndexOfAt(s: string, c: char, i: nat)
    requires i < |s| && s[i] == c && c !in s[i + 1..]
    ensures LastIndexOf(s, c) == Some(i)
  {
  }

  /** `Path.GetFileName`: everything after the last directory separator. */
  function FileName(path: string): (name: string)
    ensures |name| <= |path| && name == path[|path| - |name|..]
    ensures DirectorySeparator !in name
    ensures |name| < |path| ==> path[|path| - |name| - 1] == DirectorySeparator
  {
    match LastIndexOf(path, DirectorySeparator)
    case None => path
    case Some(i) => path[i + 1..]
  }

  /** A name without a directory part is its own file name. */
  lemma FileNameOfPlainName(path: string)
    requires DirectorySeparator !in path
    ensures FileName(path) == path
  {
  }

  /** The part of a file name before its last '.'. */
  function StemOf(name: string): (stem: string)
    ensures stem <= name
  {
    match LastIndexOf(name, '.')
    case None => name
    case Some(i) => name[..i]
  }

  /** The part of a file name from its last '.' on, empty if that '.' is the last character. */
  function ExtensionOf(name: string): (ext: string)
    ensures ext == [] || (|ext| >= 2 && ext[0] == '.' && '.' !in ext[1..])
    ensures |ext| <= |name| && ext == name[|name| - |ext|..]
  {
    match LastIndexOf(name, '.')
    case None => []
    case Some(i) =>
      if i == |name| - 1 then []
      else
        assert name[i..][1..] == name[i + 1..];
        name[i..]
  }

  /** Stem and extension of a file name give it back, except for a trailing '.'. */
  lemma StemAndExtensionOf(f: string)
    ensures if f != [] && f[|f| - 1] == '.' then StemOf(f) + "." == f && ExtensionOf(f) == []
            else StemOf(f) + ExtensionOf(f) == f
  {
    match LastIndexOf(f, '.')
    case None =>
    case Some(i) =>
      if i == |f| - 1 {
        assert f[..i] + "." == f;
      } else {
        assert f[i + 1..][|f| - i - 2] == f[|f| - 1];
        assert f[..i] + f[i..] == f;
      }
  }

  /** `Path.GetFileNameWithoutExtension`: the file name up to its last '.'. */
  function FileNameWithoutExtension(path: string): (stem: string)
    ensures stem <= FileName(path)
    ensures DirectorySeparator !in stem
  {
    var name := FileName(path);
    var stem := StemOf(name);
    assert forall k | 0 <= k < |stem| :: stem[k] == name[k];
    stem
  }

  /**
   * `Path.GetExtension`: the file name from its last '.' on, or empty when the
   * file name has no '.' or ends in one.
   */
  function Extension(path: string): (ext: string)
    ensures ext == [] || (|ext| >= 2 && ext[0] == '.' && '.' !in ext[1..])
    ensures |ext| <= |FileName(path)| && ext == FileName(path)[|FileName(path)| - |ext|..]
    ensures DirectorySeparator !in ext
  {
    var name := FileName(path);
    var ext := ExtensionOf(name);
    assert forall k | 0 <= k < |ext| :: ext[k] == name[|name| - |ext| + k];
    ext
  }

  /** Stem and extension of a path are those of its file name: the directory part plays no role. */
  lemma DirectoryPartIgnored(path: string)
    ensures FileNameWithoutExtension(path) == FileNameWithoutExtension(FileName(path))
    ensures Extension(path) == Extension(FileName(path))
  {
    FileNameOfPlainName(FileName(path));
  }

  /**
   * Stem and extension put back together give the file name, except that a
   * trailing '.' belongs to neither of them.
   */
  lemma StemAndExtension(path: string)
    ensures var f := FileName(path);
            var stem, ext := FileNameWithoutExtension(path), Extension(path);
            if f != [] && f[|f| - 1] == '.' then stem + "." == f && ext == []
            else stem + ext == f
  {
    StemAndExtensionOf(FileName(path));
  }

  predicate IsLowerHexDigit(c: char)
  {
    '0' <= c <= '9' || 'a' <= c <= 'f'
  }

  /** The text of `Guid.NewGuid()` in its default "D" format: 8-4-4-4-12 hex digits. */
  predicate ValidGuid(g: string)
  {
    && |g| == 36
    && forall i | 0 <= i < 36 ::
         if i == 8 || i == 13 || i == 18 || i == 23 then g[i] == '-' else IsLowerHexDigit(g[i])
  }

  /** GUID text holds neither a '.' nor a directory separator. */
  lemma GuidIsPlain(guid: string)
    requires ValidGuid(guid)
    ensures '.' !in guid && DirectorySeparator !in guid
  {
  }

  /**
   * The name an upload is stored under when its own name is taken:
   * `<stem>_<guid><ext>`, built from the file-name part only, so any directory
   * part of the original name is dropped.
   */
  function UniqueBlobName(blobName: string, guid: string): (r: string)
    ensures ValidGuid(guid) ==> DirectorySeparator !in r
  {
    var stem, ext := FileNameWithoutExtension(blobName), Extension(blobName);
    assert ValidGuid(guid) ==> DirectorySeparator !in guid by {
      if ValidGuid(guid) {
        GuidIsPlain(guid);
      }
    }
    stem + "_" + guid + ext
  }

  /** Renaming a path gives the same name as renaming its file name alone. */
  lemma UniqueBlobNameIgnoresDirectory(blobName: string, guid: string)
    ensures UniqueBlobName(blobName, guid) == UniqueBlobName(FileName(blobName), guid)
  {
    DirectoryPartIgnored(blobName);
  }

  /** A renamed name never equals the name it replaces. */
  lemma UniqueBlobNameDiffers(blobName: string, guid: string)
    requires ValidGuid(guid)
    ensures UniqueBlobName(blobName, guid) != blobName
  {
    var r := UniqueBlobName(blobName, guid);
    if DirectorySeparator !in blobName {
      FileNameOfPlainName(blobName);
      StemAndExtension(blobName);
      assert |r| > |blobName|;
    }
  }

  /** In a plain name, a last '.' that is not the last character splits it. */
  lemma SplitAtLastDot(r: string, i: nat)
    requires DirectorySeparator !in r
    requires i < |r| - 1 && r[i] == '.' && '.' !in r[i + 1..]
    ensures FileNameWithoutExtension(r) == r[..i] && Extension(r) == r[i..]
  {
    FileNameOfPlainName(r);
    LastIndexOfAt(r, '.', i);
  }

  /** A plain name without any '.' is all stem. */
  lemma SplitWithoutDot(r: string)
    requires DirectorySeparator !in r && '.' !in r
    ensures FileNameWithoutExtension(r) == r && Extension(r) == []
  {
    FileNameOfPlainName(r);
  }

  /** Splitting `head + tag + ext` when `ext` is an extension and `tag` has no '.'. */
  lemma SplitAppended(head: string, tag: string, ext: string)
    requires DirectorySeparator !in head + tag + ext && '.' !in tag
    requires ext == [] ==> '.' !in head
    requires ext == [] || (|ext| >= 2 && ext[0] == '.' && '.' !in ext[1..])
    ensures FileNameWithoutExtension(head + tag + ext) == head + tag
    ensures Extension(head + tag + ext) == ext
  {
    var r := head + tag + ext;
    if ext == [] {
      assert r == head + tag;
      SplitWithoutDot(r);
    } else {
      var i := |head| + |tag|;
      assert r[i..] == ext && r[..i] == head + tag;
      assert r[i + 1..] == ext[1..];
      SplitAtLastDot(r, i);
    }
  }

  /**
   * Splitting a renamed name gives back the original stem with `_<guid>`
   * appended and the original extension, whenever the original file name does
   * not end in '.'.
   */
  lemma UniqueBlobNameSplits(blobName: string, guid: string)
    requires ValidGuid(guid)
    requires var f := FileName(blobName); f == [] || f[|f| - 1] != '.'
    ensures FileNameWithoutExtension(UniqueBlobName(blobName, guid))
            == FileNameWithoutExtension(blobName) + "_" + guid
    ensures Extension(UniqueBlobName(blobName, guid)) == Extension(blobName)
  {
    var stem, ext := FileNameWithoutExtension(blobName), Extension(blobName);
    var f := FileName(blobName);
    StemAndExtensionOf(f);
    GuidIsPlain(guid);
    if ext == [] {
      assert LastIndexOf(f, '.').None?;
      assert stem == f;
    }
    var head := stem + "_";
    assert UniqueBlobName(blobName, guid) == head + guid + ext;
    SplitAppended(head, guid, ext);
  }

  /** Re-uploading `clip.mp4` stores it as `clip_<guid>.mp4`. */
  lemma RenameScenario(guid: string)
    ensures UniqueBlobName("clip.mp4", guid) == "clip_" + guid + ".mp4"
  {
    var name := "clip.mp4";
    FileNameOfPlainName(name);
    assert name[5..] == "mp4";
    LastIndexOfAt(name, '.', 4);
  }

  /** A name with a directory part is renamed at the container root. */
  lemma RenameScenarioInDirectory(guid: string)
    ensures UniqueBlobName("dir/clip.mp4", guid) == "clip_" + guid + ".mp4"
  {
    var path := "dir/clip.mp4";
    LastIndexOfAt(path, DirectorySeparator, 3);
    assert FileName(path) == "clip.mp4";
    UniqueBlobNameIgnoresDirectory(path, guid);
    RenameScenario(guid);
  }
}
