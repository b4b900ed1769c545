/** What compressing a folder and then extracting the result gives back, and
    how the default paths of the two operations fit together. */
module RoundTrip {
  import opened Outcomes
  import opened Text
  import opened PurePaths
  import opened EntrySafety
  import opened Compress
  import opened Extract

  /** The members of an archive holding `names`, every one of which can be written. */
  function AsMembers(names: seq<string>): seq<Member> {
    if names == [] then [] else [Member(names[0], true)] + AsMembers(names[1..])
  }

  /** `names` without those holding "..", in order. */
  function WithoutDotDot(names: seq<string>): seq<string> {
    if names == [] then []
    else if Contains(names[0], "..") then WithoutDotDot(names[1..])
    else [names[0]] + WithoutDotDot(names[1..])
  }

  /** Some name in the relative path holds "..". */
  predicate HasDotDotName(rel: seq<Component>) {
    exists k :: 0 <= k < |rel| && Contains(rel[k], "..")
  }

  /** The listed paths none of whose names holds "..", in order. */
  function Restorable(listing: seq<Listed>): seq<Listed> {
    if listing == [] then []
    else if HasDotDotName(listing[0].rel) then Restorable(listing[1..])
    else [listing[0]] + Restorable(listing[1..])
  }

  /** Extracting relative names, all writable, writes exactly those without
      "..", in archive order. */
  lemma {:induction false} ExtractKeepsNamesWithoutDotDot(names: seq<string>)
    requires forall n :: n in names ==> !StartsWith(n, "/")
    ensures ExtractedNames(Report(AsMembers(names))) == WithoutDotDot(names)
    decreases |names|
  {
    if names != [] {
      assert forall n :: n in names[1..] ==> n in names;
      ExtractKeepsNamesWithoutDotDot(names[1..]);
      assert names[0] in names;
      var r := Report(AsMembers(names));
      assert r == [OutcomeOf(Member(names[0], true))] + Report(AsMembers(names[1..]));
      assert r[1..] == Report(AsMembers(names[1..]));
    }
  }

  /** A file's entry name holds ".." exactly when a name in its path does, so
      the names kept are those of the restorable files. */
  lemma {:induction false} KeptNamesAreRestorableFiles(listing: seq<Listed>)
    ensures WithoutDotDot(FileNames(listing)) == FileNames(Restorable(listing))
    decreases |listing|
  {
    if listing != [] {
      KeptNamesAreRestorableFiles(listing[1..]);
      EntryNameHasDotDot(listing[0].rel);
      var rest := Restorable(listing[1..]);
      if !HasDotDotName(listing[0].rel) {
        assert ([listing[0]] + rest)[1..] == rest;
      }
      if listing[0].isFile {
        assert ([EntryName(listing[0].rel)] + FileNames(listing[1..]))[1..] == FileNames(listing[1..]);
      }
    }
  }

  /** Compress a folder whose files can all be read, then extract the archive
      with every write succeeding: the archive holds one entry per file, and
      what comes back is exactly the files none of whose path names holds "..",
      in order. A file such as "a..b.txt" is archived but not restored. */
  lemma CompressThenExtract(listing: seq<Listed>)
    requires IsListing(listing)
    requires forall e :: e in listing && e.isFile ==> e.readable
    ensures Archived(listing).complete && Archived(listing).entries == FileNames(listing)
    ensures ExtractedNames(Report(AsMembers(Archived(listing).entries))) == FileNames(Restorable(listing))
  {
    ArchivedMatchesFileNames(listing);
    EntryNamesAreRelative(listing);
    ExtractKeepsNamesWithoutDotDot(FileNames(listing));
    KeptNamesAreRestorableFiles(listing);
  }

  /** The smallest instance: a folder holding only "a..b.txt" compresses to an
      archive with that one entry, and extracting it writes nothing. */
  lemma DoubleDotFileIsNotRestored()
    ensures Archived([Listed(["a..b.txt"], true, true)]).entries == ["a..b.txt"]
    ensures ExtractedNames(Report(AsMembers(["a..b.txt"]))) == []
  {
    var name := "a..b.txt";
    var listing := [Listed([name], true, true)];
    assert EntryName([name]) == name;
    assert Archived(listing[1..]) == Archiving([], true);
    assert AsMembers([name]) == [Member(name, true)];
    DotDotAnywhereIsUnsafe("a", "b.txt");
    assert "a" + ".." + "b.txt" == name;
    assert Report([Member(name, true)]) == [Skipped(name)];
  }

  /** The default paths of the two operations: the archive `compress_folder`
      writes for a folder is one `extract_zip` accepts by its suffix, and it
      extracts next to it into the folder's stem, which is the folder itself
      exactly when the folder's name has no suffix. */
  lemma DefaultPaths(folder: Path)
    requires Name(folder) != ""
    ensures WithZipSuffix(folder).Ok?
    ensures IsZipSuffix(Suffix(WithZipSuffix(folder).value))
    ensures DefaultDestination(WithZipSuffix(folder).value) == JoinName(Parent(folder), Stem(folder))
    ensures DefaultDestination(WithZipSuffix(folder).value) == folder <==> Suffix(folder) == ""
  {
    StemAndSuffix(folder);
    var zip := WithZipSuffix(folder).value;
    assert Stem(zip) == Stem(folder) && Parent(zip) == Parent(folder);
    var dest := DefaultDestination(zip);
    assert dest == JoinName(Parent(folder), Stem(folder));
    assert folder.parts == Parent(folder).parts + [Name(folder)];
    if Suffix(folder) == "" {
      assert Stem(folder) == Name(folder);
    } else if Stem(folder) == "." {
      assert |dest.parts| < |folder.parts|;
    } else {
      assert |Name(dest)| < |Name(folder)|;
    }
  }

  /** A folder named `stem.ext` compresses to `stem.zip` beside it, which
      extracts into the sibling folder `stem`, not into the folder itself
      (folder "a.b" gives "a.zip", extracted into "a"). */
  lemma SuffixedFolderExtractsBesideIt(parent: Path, stem: string, ext: string)
    requires stem != "" && stem != "." && '/' !in stem
    requires ext != "" && '.' !in ext && '/' !in ext
    ensures var folder := Path(parent.anchored, parent.parts + [stem + "." + ext]);
      && WithZipSuffix(folder) == Ok(Path(parent.anchored, parent.parts + [stem + ".zip"]))
      && DefaultDestination(WithZipSuffix(folder).value) == Path(parent.anchored, parent.parts + [stem])
      && DefaultDestination(WithZipSuffix(folder).value) != folder
  {
    var name := stem + "." + ext;
    assert '/' !in name by {
      forall k | 0 <= k < |name|
        ensures name[k] != '/'
      {
        if k < |stem| {
          assert name[k] == stem[k];
        } else if k > |stem| {
          assert name[k] == ext[k - |stem| - 1];
        }
      }
    }
    var folder := Path(parent.anchored, parent.parts + [name]);
    assert Name(folder) == name && Parent(folder) == parent;
    assert name[|stem|] == '.';
    forall k | |stem| < k < |name|
      ensures name[k] != '.'
    {
      assert name[k] == ext[k - |stem| - 1];
    }
    assert LastDot(name) == |stem|;
    assert SuffixStart(name) == |stem|;
    assert Stem(folder) == stem by {
      assert name[..|stem|] == stem;
    }
    var zip := WithZipSuffix(folder).value;
    assert zip.parts == Parent(zip).parts + [Name(zip)];
    assert Stem(zip) == stem && Parent(zip) == parent;
    assert DefaultDestination(zip) == JoinName(parent, stem);
    assert |stem| < |name|;
  }

  /** An archive named "..zip" has the stem ".", so by default it is
      extracted straight into the directory that holds it. */
  lemma DotStemExtractsIntoParent(zip: Path)
    requires Name(zip) == "..zip"
    ensures IsZipSuffix(Suffix(zip))
    ensures DefaultDestination(zip) == Parent(zip)
  {
    var name := "..zip";
    assert name[1] == '.' && name[2] == 'z' && name[3] == 'i' && name[4] == 'p';
    assert LastDot(name) == 1;
    assert SuffixStart("..zip") == 1;
    assert Suffix(zip) == ".zip";
    assert Stem(zip) == ".";
  }
}
