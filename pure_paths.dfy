/** The part of POSIX `pathlib.PurePath` the tool uses: the final name, its
    suffix and stem, `with_suffix`, `parent` and the `/` operator. A path is
    kept in the parsed form pathlib holds: whether it starts at the root, and
    its names, none of them empty or "." (parsing drops those). */
module PurePaths {
  import opened Outcomes
  import opened Text

  predicate IsComponent(c: string) {
    c != "" && c != "." && '/' !in c
  }

  type Component = c: string | IsComponent(c) witness "a"

  datatype Path = Path(anchored: bool, parts: seq<Component>)

  /** `p.name`: the last name, or "" for "/" and ".". */
  function Name(p: Path): string {
    if p.parts == [] then "" else p.parts[|p.parts| - 1]
  }

  /** `p.parent`: the path without its last name; "/" and "." are their own parents. */
  function Parent(p: Path): Path {
    if p.parts == [] then p else Path(p.anchored, p.parts[..|p.parts| - 1])
  }

  /** `name.rfind('.')`: the position of the last dot, or -1. */
  function LastDot(name: string): (i: int)
    ensures -1 <= i < |name|
    ensures 0 <= i ==> name[i] == '.'
    ensures forall k :: i < k < |name| ==> name[k] != '.'
  {
    if name == [] then -1
    else if name[|name| - 1] == '.' then |name| - 1
    else LastDot(name[..|name| - 1])
  }

  /** Where pathlib cuts a name into stem and suffix: at the last dot when that
      dot is neither the first nor the last character, else at the end. */
  function SuffixStart(name: string): (i: nat)
    ensures i <= |name|
    ensures i < |name| ==> 0 < i < |name| - 1 && name[i] == '.'
    ensures i < |name| ==> forall k :: i < k < |name| ==> name[k] != '.'
    ensures i == |name| <==>
      |name| == 0 || name[|name| - 1] == '.' || forall k :: 0 < k < |name| ==> name[k] != '.'
  {
    var d := LastDot(name);
    if 0 < d < |name| - 1 then d else |name|
  }

  /** `p.suffix` */
  function Suffix(p: Path): string {
    Name(p)[SuffixStart(Name(p))..]
  }

  /** `p.stem` */
  function Stem(p: Path): string {
    Name(p)[..SuffixStart(Name(p))]
  }

  /** The stem and the suffix split the name; a suffix is a dot and at least one
      more character, with no other dot, and it always leaves a non-empty stem. */
  lemma StemAndSuffix(p: Path)
    ensures Stem(p) + Suffix(p) == Name(p)
    ensures Suffix(p) != "" ==>
      |Suffix(p)| >= 2 && Suffix(p)[0] == '.' && '.' !in Suffix(p)[1..] && Stem(p) != ""
    ensures Name(p) != "" ==> Stem(p) != ""
    ensures '/' !in Stem(p)
  {
  }

  /** `p.with_suffix('.zip')`: raises for a path with an empty name, otherwise
      replaces the last suffix of the name (or extends a name without one). */
  function WithZipSuffix(p: Path): (r: Result<Path>)
    ensures r.Raised? <==> Name(p) == ""
    ensures r.Ok? ==> r.value.anchored == p.anchored && Parent(r.value) == Parent(p)
    ensures r.Ok? ==> Name(r.value) == Stem(p) + ".zip"
    ensures r.Ok? ==> Suffix(r.value) == ".zip" && Stem(r.value) == Stem(p)
  {
    var name := Name(p);
    if name == "" then Raised
    else
      var oldSuffix := Suffix(p);
      var newName := if oldSuffix == "" then name + ".zip"
                     else name[..|name| - |oldSuffix|] + ".zip";
      StemAndSuffix(p);
      assert newName == Stem(p) + ".zip";
      ZipNameSplits(Stem(p));
      Ok(Path(p.anchored, p.parts[..|p.parts| - 1] + [newName]))
  }

  /** A non-empty stem without '/' followed by ".zip" is a name whose suffix
      pathlib cuts off at that ".zip". */
  lemma ZipNameSplits(stem: string)
    requires stem != "" && '/' !in stem
    ensures var name := stem + ".zip";
      && SuffixStart(name) == |stem| && name[..|stem|] == stem && name[|stem|..] == ".zip"
      && '/' !in name
  {
    var name := stem + ".zip";
    assert name[|stem|] == '.';
    forall k | |stem| < k < |name|
      ensures name[k] != '.'
    {
      assert name[k] == "zip"[k - |stem| - 1];
    }
    assert LastDot(name) == |stem|;
    assert name[..|stem|] == stem && name[|stem|..] == ".zip";
    forall k | 0 <= k < |name|
      ensures name[k] != '/'
    {
      if k < |stem| {
        assert name[k] == stem[k];
      } else {
        assert name[k] == ".zip"[k - |stem|];
      }
    }
  }

  /** `p / name` for a name with no '/': "" and "." leave the path as it is. */
  function JoinName(p: Path, name: string): (r: Path)
    requires '/' !in name
    ensures r.anchored == p.anchored
    ensures name != "" && name != "." ==> Parent(r) == p && Name(r) == name
    ensures name == "" || name == "." ==> r == p
  {
    if name == "" || name == "." then p else Path(p.anchored, p.parts + [name])
  }

  /** The names pathlib keeps when it parses the '/'-separated pieces of a string. */
  function Components(pieces: seq<string>): (r: seq<Component>)
    ensures forall c :: c in r ==> c in pieces
  {
    if pieces == [] then []
    else if IsComponent(pieces[0]) then [pieces[0]] + Components(pieces[1..])
    else Components(pieces[1..])
  }

  /** `dest / name` for an arbitrary string: a name starting with '/' replaces
      the destination altogether, any other is appended name by name. Nothing
      is sanitised; ".." stays as it is. */
  function NaiveJoin(dest: Path, name: string): Path {
    var names := Components(Split(name));
    if StartsWith(name, "/") then Path(true, names) else Path(dest.anchored, dest.parts + names)
  }

  /** `target` is `dest` followed by names none of which is "..": however the
      ".." inside `dest` are resolved, `target` resolves to a place under it. */
  predicate StaysWithin(dest: Path, target: Path) {
    && target.anchored == dest.anchored
    && |dest.parts| <= |target.parts|
    && target.parts[..|dest.parts|] == dest.parts
    && forall k :: |dest.parts| <= k < |target.parts| ==> target.parts[k] != ".."
  }

  /** `suffix.lower() == '.zip'` */
  function IsZipSuffix(suffix: string): (r: bool)
    ensures r <==> |suffix| == 4 && suffix[0] == '.' && (suffix[1] == 'z' || suffix[1] == 'Z')
                   && (suffix[2] == 'i' || suffix[2] == 'I') && (suffix[3] == 'p' || suffix[3] == 'P')
  {
    var lower := LowerAscii(suffix);
    if |suffix| == 4 then
      assert lower == ".zip" <==> lower[0] == '.' && lower[1] == 'z' && lower[2] == 'i' && lower[3] == 'p';
      lower == ".zip"
    else
      lower == ".zip"
  }
}
