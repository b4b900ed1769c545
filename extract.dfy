/** `extract_zip` (zip_tool.py lines 66-138): three checks on the archive path,
    the destination directory, the whole-archive integrity test, then one pass
    over the members that skips unsafe names and survives failed writes. The
    archive is given as its parse outcome, its integrity-test outcome and its
    members with the outcome of writing each; what the call leaves behind is
    returned as values. */
module Extract {
  import opened Outcomes
  import opened FileSystem
  import opened Text
  import opened PurePaths
  import opened EntrySafety

  /** One member of `zipf.infolist()`: its name, and whether
      `zipf.extract(member, extract_path)` returns normally for it. */
  datatype Member = Member(name: string, writes: bool)

  /** What `zipf.testzip()` does: no bad member (None), the name of the first
      bad member, or an exception of its own. */
  datatype Integrity = NoBadMember | BadMember(badName: string) | CheckRaised

  /** What `zipfile.ZipFile(zip_path, 'r')` finds: no readable ZIP container
      (it raises), or one with an integrity outcome and its members in
      `infolist()` order. */
  datatype Container = Unreadable | Readable(check: Integrity, members: seq<Member>)

  /** What happened to one member in the loop of lines 116-128. */
  datatype EntryOutcome = Skipped(name: string) | Extracted(name: string) | Failed(name: string)

  /** Lines 80-90: the path must exist, be a regular file and have a suffix
      that lower-cases to ".zip". */
  predicate AcceptsArchivePath(zip: Path, kind: FsKind) {
    Exists(kind) && IsFile(kind) && IsZipSuffix(Suffix(zip))
  }

  /** Line 94: the folder next to the archive named after its stem. */
  function DefaultDestination(zip: Path): Path {
    StemAndSuffix(zip);
    JoinName(Parent(zip), Stem(zip))
  }

  /** Lines 93-96 */
  function Destination(zip: Path, extractPath: Option<Path>): Path {
    if extractPath.Some? then extractPath.value else DefaultDestination(zip)
  }

  /** Lines 106-109: `if bad_file:` stops only on a truthy name, so a bad
      member whose name is the empty string lets extraction go on. */
  predicate PassesIntegrityGate(check: Integrity) {
    match check
    case NoBadMember => true
    case BadMember(badName) => badName == ""
    case CheckRaised => false
  }

  /** Lines 117-128 for one member. */
  function OutcomeOf(m: Member): EntryOutcome {
    if IsUnsafe(m.name) then Skipped(m.name)
    else if m.writes then Extracted(m.name)
    else Failed(m.name)
  }

  /** The loop of lines 116-128 over all members, in order. */
  function Report(members: seq<Member>): (r: seq<EntryOutcome>)
    ensures |r| == |members|
  {
    if members == [] then [] else [OutcomeOf(members[0])] + Report(members[1..])
  }

  /** The names actually written, in order. */
  function ExtractedNames(report: seq<EntryOutcome>): seq<string> {
    if report == [] then []
    else if report[0].Extracted? then [report[0].name] + ExtractedNames(report[1..])
    else ExtractedNames(report[1..])
  }

  /** When `extract_zip` returns True. */
  predicate ExtractSucceeds(zip: Path, kind: FsKind, mkdirOk: bool, container: Container) {
    AcceptsArchivePath(zip, kind) && mkdirOk && container.Readable? && PassesIntegrityGate(container.check)
  }

  /** The report has one outcome per member, in member order: unsafe names are
      skipped, every other name is written or fails on its own. */
  lemma {:induction false} ReportAt(members: seq<Member>, k: nat)
    requires k < |members|
    ensures Report(members)[k].name == members[k].name
    ensures Report(members)[k].Skipped? <==> IsUnsafe(members[k].name)
    ensures Report(members)[k].Extracted? <==> !IsUnsafe(members[k].name) && members[k].writes
    decreases |members|
  {
    if k > 0 {
      ReportAt(members[1..], k - 1);
    } else if |members| > 1 {
      ReportAt(members[1..], 0);
    }
  }

  /** The loop of lines 116-128: every member is considered in order; an
      unsafe name is skipped, any other is written into `dest` or fails, and
      neither a skip nor a failure stops the loop. */
  method ExtractMembers(dest: Path, members: seq<Member>) returns (report: seq<EntryOutcome>)
    ensures report == Report(members)
    ensures |report| == |members|
    ensures forall k :: 0 <= k < |report| ==>
      report[k].name == members[k].name && (report[k].Skipped? <==> IsUnsafe(report[k].name))
    ensures forall k :: 0 <= k < |report| && report[k].Extracted? ==>
      members[k].writes && StaysWithin(dest, NaiveJoin(dest, report[k].name))
  {
    report := [];
    var i := 0;
    while i < |members|
      invariant i <= |members|
      invariant report + Report(members[i..]) == Report(members)
    {
      assert members[i..][1..] == members[i + 1..];
      var m := members[i];
      assert Report(members[i..]) == [OutcomeOf(m)] + Report(members[i + 1..]);
      var outcome: EntryOutcome;
      if IsUnsafe(m.name) {
        outcome := Skipped(m.name);
      } else if m.writes {
        outcome := Extracted(m.name);
      } else {
        outcome := Failed(m.name);
      }
      assert outcome == OutcomeOf(m);
      assert report + [outcome] + Report(members[i + 1..]) == report + Report(members[i..]);
      report := report + [outcome];
      i := i + 1;
    }
    assert members[i..] == [];
    ReportStaysWithin(dest, members);
  }

  /** Every name the loop writes lands inside the destination. */
  lemma ReportStaysWithin(dest: Path, members: seq<Member>)
    ensures forall k :: 0 <= k < |members| ==>
      Report(members)[k].name == members[k].name && (Report(members)[k].Skipped? <==> IsUnsafe(members[k].name))
    ensures forall k :: 0 <= k < |members| && Report(members)[k].Extracted? ==>
      members[k].writes && StaysWithin(dest, NaiveJoin(dest, members[k].name))
  {
    forall k | 0 <= k < |members|
      ensures Report(members)[k].name == members[k].name && (Report(members)[k].Skipped? <==> IsUnsafe(members[k].name))
      ensures Report(members)[k].Extracted? ==> members[k].writes && StaysWithin(dest, NaiveJoin(dest, members[k].name))
    {
      ReportAt(members, k);
      if !IsUnsafe(members[k].name) {
        SafeNameStaysWithin(dest, members[k].name);
      }
    }
  }

  /** `extract_zip(zip, extractPath)`. `mkdirOk` says whether the `mkdir` of
      line 99 returns normally. Returns the result, the destination directory
      made, whether the archive was opened, and what happened to each member. */
  method ExtractZip(zip: Path, kind: FsKind, extractPath: Option<Path>, mkdirOk: bool, container: Container)
    returns (ok: bool, madeDir: Option<Path>, archiveOpened: bool, report: seq<EntryOutcome>)
    ensures ok <==> ExtractSucceeds(zip, kind, mkdirOk, container)
    ensures !AcceptsArchivePath(zip, kind) ==> madeDir == None && !archiveOpened && report == []
    ensures madeDir.Some? <==> AcceptsArchivePath(zip, kind) && mkdirOk
    ensures madeDir.Some? ==> madeDir.value == Destination(zip, extractPath)
    ensures archiveOpened <==> madeDir.Some? && container.Readable?
    ensures !ok ==> report == []
    ensures ok ==> report == Report(container.members)
    ensures ok ==> forall k :: 0 <= k < |report| && report[k].Extracted? ==>
      StaysWithin(madeDir.value, NaiveJoin(madeDir.value, report[k].name))
  {
    madeDir, archiveOpened, report := None, false, [];
    if !Exists(kind) {
      return false, madeDir, archiveOpened, report;
    }
    if !IsFile(kind) {
      return false, madeDir, archiveOpened, report;
    }
    if !IsZipSuffix(Suffix(zip)) {
      return false, madeDir, archiveOpened, report;
    }
    var dest: Path;
    if extractPath.None? {
      StemAndSuffix(zip);
      dest := JoinName(Parent(zip), Stem(zip));
    } else {
      dest := extractPath.value;
    }
    if !mkdirOk {
      return false, madeDir, archiveOpened, report;
    }
    madeDir := Some(dest);
    if container.Unreadable? {
      return false, madeDir, archiveOpened, report;
    }
    archiveOpened := true;
    match container.check {
      case BadMember(badName) =>
        if badName != "" {
          return false, madeDir, archiveOpened, report;
        }
      case CheckRaised =>
        return false, madeDir, archiveOpened, report;
      case NoBadMember =>
    }
    report := ExtractMembers(dest, container.members);
    ok := true;
  }
}
