/** `compress_folder` (zip_tool.py lines 15-63): check the folder, work out
    the archive path, create its parent directory, open the archive and add
    every regular file found under the folder, named by its path relative to
    the folder. The filesystem and the ZIP writer are given as facts and
    outcomes; what the call leaves behind is returned as values. */
module Compress {
  import opened Outcomes
  import opened FileSystem
  import opened Text
  import opened PurePaths

  /** One path `folder_path.rglob('*')` yields: its names relative to the
      folder, whether `is_file()` holds for it, and whether `zipf.write` can
      read it (a write that raises ends the whole call). */
  datatype Listed = Listed(rel: seq<Component>, isFile: bool, readable: bool)

  /** What a recursive listing of a real directory looks like: every path lies
      strictly below the folder and is made of directory-entry names, which are
      never "..". */
  predicate IsListing(listing: seq<Listed>) {
    forall e :: e in listing ==> e.rel != [] && forall c :: c in e.rel ==> c != ".."
  }

  /** The entry name `zipf.write(file_path, arcname)` stores: the relative path
      with '/' between its names. */
  function EntryName(rel: seq<Component>): string {
    JoinSlash(rel)
  }

  /** The archive the source promises: one entry per regular file, in listing
      order, and none for directories. */
  function FileNames(listing: seq<Listed>): seq<string> {
    if listing == [] then []
    else if listing[0].isFile then [EntryName(listing[0].rel)] + FileNames(listing[1..])
    else FileNames(listing[1..])
  }

  /** What the loop of lines 51-56 writes: `entries` in order, and whether it
      got to the end (`complete`) or a write raised part-way. */
  datatype Archiving = Archiving(entries: seq<string>, complete: bool)

  function Archived(listing: seq<Listed>): Archiving {
    if listing == [] then Archiving([], true)
    else if !listing[0].isFile then Archived(listing[1..])
    else if !listing[0].readable then Archiving([], false)
    else
      var rest := Archived(listing[1..]);
      Archiving([EntryName(listing[0].rel)] + rest.entries, rest.complete)
  }

  /** Lines 38-41: the explicit archive path, or the folder with its last
      suffix replaced by ".zip" (which raises for a folder with no name). */
  function ArchivePath(folder: Path, zipPath: Option<Path>): Result<Path> {
    if zipPath.None? then WithZipSuffix(folder) else Ok(zipPath.value)
  }

  /** When `compress_folder` returns True. */
  predicate CompressSucceeds(folder: Path, kind: FsKind, zipPath: Option<Path>,
                             mkdirOk: bool, openOk: bool, listing: seq<Listed>)
  {
    IsDir(kind) && ArchivePath(folder, zipPath).Ok? && mkdirOk && openOk && Archived(listing).complete
  }

  /** `compress_folder(folder, zipPath)`. `mkdirOk` and `openOk` say whether the
      `mkdir` of line 44 and the `ZipFile(..., 'w')` of line 49 return normally.
      Returns the result, the directory made for the archive, the archive
      created and the entries written into it. */
  method CompressFolder(folder: Path, kind: FsKind, zipPath: Option<Path>,
                        mkdirOk: bool, openOk: bool, listing: seq<Listed>)
    returns (ok: bool, madeDir: Option<Path>, archive: Option<Path>, entries: seq<string>)
    ensures ok <==> CompressSucceeds(folder, kind, zipPath, mkdirOk, openOk, listing)
    ensures !IsDir(kind) ==> madeDir == None && archive == None && entries == []
    ensures madeDir.Some? <==> IsDir(kind) && ArchivePath(folder, zipPath).Ok? && mkdirOk
    ensures madeDir.Some? ==> madeDir.value == Parent(ArchivePath(folder, zipPath).value)
    ensures archive.Some? <==> madeDir.Some? && openOk
    ensures archive.Some? ==> archive.value == ArchivePath(folder, zipPath).value
    ensures archive.Some? ==> entries == Archived(listing).entries
    ensures archive.None? ==> entries == []
  {
    madeDir, archive, entries := None, None, [];
    if !Exists(kind) {
      return false, madeDir, archive, entries;
    }
    if !IsDir(kind) {
      return false, madeDir, archive, entries;
    }
    var target: Path;
    if zipPath.None? {
      var withSuffix := WithZipSuffix(folder);
      if withSuffix.Raised? {
        return false, madeDir, archive, entries;
      }
      target := withSuffix.value;
    } else {
      target := zipPath.value;
    }
    if !mkdirOk {
      return false, madeDir, archive, entries;
    }
    madeDir := Some(Parent(target));
    if !openOk {
      return false, madeDir, archive, entries;
    }
    archive := Some(target);
    var complete;
    entries, complete := WriteFiles(listing);
    ok := complete;
  }

  /** The loop of lines 51-56: write one entry per regular file, in listing
      order, and stop at the first file whose write raises. Returns the
      entries written and whether the loop got to the end. */
  method WriteFiles(listing: seq<Listed>) returns (entries: seq<string>, complete: bool)
    ensures Archiving(entries, complete) == Archived(listing)
  {
    entries := [];
    var i := 0;
    while i < |listing|
      invariant i <= |listing|
      invariant Archived(listing) == Archiving(entries + Archived(listing[i..]).entries, Archived(listing[i..]).complete)
    {
      ArchivedStep(listing, i);
      var e := listing[i];
      if e.isFile {
        if !e.readable {
          return entries, false;
        }
        entries := entries + [EntryName(e.rel)];
      }
      i := i + 1;
    }
    assert listing[i..] == [];
    complete := true;
  }

  /** One step of the loop, as `Archived` sees it. */
  lemma ArchivedStep(listing: seq<Listed>, i: nat)
    requires i < |listing|
    ensures var e, rest := listing[i], Archived(listing[i + 1..]);
      Archived(listing[i..]) ==
        if !e.isFile then rest
        else if !e.readable then Archiving([], false)
        else Archiving([EntryName(e.rel)] + rest.entries, rest.complete)
  {
  }

  /** The archive written is always the beginning of the promised one; the loop
      completes exactly when every regular file can be read, and then the
      archive is the promised one. */
  lemma {:induction false} ArchivedMatchesFileNames(listing: seq<Listed>)
    ensures Archived(listing).entries <= FileNames(listing)
    ensures Archived(listing).complete <==> forall e :: e in listing && e.isFile ==> e.readable
    ensures Archived(listing).complete ==> Archived(listing).entries == FileNames(listing)
    decreases |listing|
  {
    if listing != [] {
      ArchivedMatchesFileNames(listing[1..]);
      assert forall e :: e in listing[1..] ==> e in listing;
      assert forall e :: e in listing ==> e == listing[0] || e in listing[1..];
    }
  }

  /** Directories produce no entries: a tree with no regular files gives an
      empty archive, and the call still completes. */
  lemma {:induction false} NoFilesNoEntries(listing: seq<Listed>)
    requires forall e :: e in listing ==> !e.isFile
    ensures FileNames(listing) == []
    ensures Archived(listing) == Archiving([], true)
    decreases |listing|
  {
    if listing != [] {
      assert forall e :: e in listing[1..] ==> e in listing;
      NoFilesNoEntries(listing[1..]);
    }
  }

  /** Every entry name the archiver writes is relative: non-empty and not
      starting with '/'. */
  lemma {:induction false} EntryNamesAreRelative(listing: seq<Listed>)
    requires IsListing(listing)
    ensures forall n :: n in FileNames(listing) ==> n != "" && !StartsWith(n, "/")
    decreases |listing|
  {
    if listing != [] {
      assert forall e :: e in listing[1..] ==> e in listing;
      EntryNamesAreRelative(listing[1..]);
      var rel := listing[0].rel;
      JoinSlashStart(rel);
      assert rel[0] in rel;
      assert EntryName(rel)[0] == rel[0][0];
      assert rel[0][0] != '/';
    }
  }

  /** An entry name holds ".." exactly when one of the names in its relative
      path does (the '/' between names keeps their dots apart). */
  lemma EntryNameHasDotDot(rel: seq<Component>)
    ensures Contains(EntryName(rel), "..") <==> exists k :: 0 <= k < |rel| && Contains(rel[k], "..")
  {
    DotDotInJoin(rel);
  }
}
