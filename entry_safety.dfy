/** The entry-name test `extract_zip` applies before writing each member
    (zip_tool.py line 119). It is a substring test on the raw name, not a test
    on path segments, and it knows only '/' as a separator. */
module EntrySafety {
  import opened Text
  import opened PurePaths

  /** `'..' in name or name.startswith('/')` */
  predicate IsUnsafe(name: string) {
    Contains(name, "..") || StartsWith(name, "/")
  }

  /** A name passes the test exactly when no two adjacent characters are both
      dots and its first character is not '/'. */
  lemma {:induction false} SafeExactly(name: string)
    ensures !IsUnsafe(name) <==>
      (forall i :: 0 <= i < |name| - 1 ==> !(name[i] == '.' && name[i + 1] == '.'))
      && (name == [] || name[0] != '/')
  {
    if Contains(name, "..") {
      var i := ContainsWitness(name, "..");
      assert name[i..i + 2][0] == name[i] && name[i..i + 2][1] == name[i + 1];
    }
    if exists i :: 0 <= i < |name| - 1 && name[i] == '.' && name[i + 1] == '.' {
      var i :| 0 <= i < |name| - 1 && name[i] == '.' && name[i + 1] == '.';
      assert OccursAt(name, "..", i);
      ContainsAt(name, "..", i);
    }
    if name != [] && name[0] == '/' {
      assert name[..1] == "/";
    }
  }

  /** Two adjacent dots anywhere make a name unsafe, whatever surrounds them
      ("a..b.txt" included). */
  lemma DotDotAnywhereIsUnsafe(before: string, after: string)
    ensures IsUnsafe(before + ".." + after)
  {
    assert StartsWith("..", "..");
    ContainsWithin(before, "..", after, "..");
  }

  /** A name starting with '/' is unsafe, whatever follows. */
  lemma AbsoluteIsUnsafe(rest: string)
    ensures IsUnsafe("/" + rest)
  {
  }

  /** The property the test is there for: a name that passes, joined onto the
      destination by plain pathlib rules with no further sanitising, names a
      place inside the destination. */
  lemma {:induction false} SafeNameStaysWithin(dest: Path, name: string)
    requires !IsUnsafe(name)
    ensures StaysWithin(dest, NaiveJoin(dest, name))
  {
    var names := Components(Split(name));
    var target := NaiveJoin(dest, name);
    assert target == Path(dest.anchored, dest.parts + names);
    forall k | |dest.parts| <= k < |target.parts|
      ensures target.parts[k] != ".."
    {
      var c := target.parts[k];
      assert c == names[k - |dest.parts|];
      if c == ".." {
        assert StartsWith(c, "..");
        assert "" + name == name;
        SplitFromKeepsPattern(name, "", c, "..");
        assert false;
      }
    }
  }

  /** The test is wider than traversal: a single name with ".." inside it,
      such as "a..b.txt", is refused although it would land inside the
      destination. */
  lemma BenignDoubleDotIsRefused(dest: Path, before: string, after: string)
    requires '/' !in before && '/' !in after
    requires before + after != ""
    ensures IsUnsafe(before + ".." + after)
    ensures StaysWithin(dest, NaiveJoin(dest, before + ".." + after))
  {
    var name := before + ".." + after;
    DotDotAnywhereIsUnsafe(before, after);
    forall k | 0 <= k < |name|
      ensures name[k] != '/'
    {
      if k < |before| {
        assert name[k] == before[k];
      } else if k >= |before| + 2 {
        assert name[k] == after[k - |before| - 2];
      }
    }
    SplitWithoutSlash(name, "");
    assert "" + name == name;
    assert |name| > 2;
    assert Components([name]) == [name];
  }

  /** Putting dot-free text in front of a name without ".." creates no "..". */
  lemma DotFreePrefixAddsNoDotDot(prefix: string, name: string)
    requires '.' !in prefix && !Contains(name, "..")
    ensures !Contains(prefix + name, "..")
  {
    var s := prefix + name;
    forall i
      ensures !OccursAt(s, "..", i)
    {
      if 0 <= i <= |s| - 2 {
        if i < |prefix| {
          assert s[i..i + 2][0] == prefix[i];
        } else if OccursAt(s, "..", i) {
          assert name[i - |prefix|..i - |prefix| + 2] == s[i..i + 2];
          ContainsAt(name, "..", i - |prefix|);
        }
      }
    }
    ContainsNowhere(s, "..");
  }

  /** The test is narrower than Windows needs: a name that passes still passes
      behind a backslash root or a drive letter, so neither form is caught. */
  lemma WindowsFormsPass(name: string)
    requires !IsUnsafe(name)
    ensures !IsUnsafe("\\" + name)
    ensures !IsUnsafe("C:\\" + name) && !IsUnsafe("C:/" + name)
  {
    DotFreePrefixAddsNoDotDot("\\", name);
    DotFreePrefixAddsNoDotDot("C:\\", name);
    DotFreePrefixAddsNoDotDot("C:/", name);
    assert ("\\" + name)[0] == '\\' && ("C:\\" + name)[0] == 'C' && ("C:/" + name)[0] == 'C';
  }
}
