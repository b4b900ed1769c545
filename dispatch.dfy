/** `main` (zip_tool.py lines 141-180): pick the operation from the two flags,
    run it on the default paths, and turn its result into the exit code. The
    parsed flags and path are given; so is whether the logging around the
    operation raises. */
module Dispatch {
  import opened Outcomes
  import opened FileSystem
  import opened PurePaths
  import opened Compress
  import opened Extract

  /** `args.compress` and `args.extract` */
  datatype Flags = Flags(compress: bool, extract: bool)

  /** Which operation a run performs. */
  datatype Mode = CompressMode | ExtractMode | NoMode

  /** Lines 161-166: compress is tested first, so it wins when both flags are set. */
  function SelectMode(flags: Flags): Mode {
    if flags.compress then CompressMode
    else if flags.extract then ExtractMode
    else NoMode
  }

  /** Line 180: `0 if success else 1` */
  function ExitCode(success: bool): (code: int)
    ensures code == 0 || code == 1
    ensures code == 0 <==> success
  {
    if success then 0 else 1
  }

  /** What the filesystem and the ZIP library do during one run. */
  datatype World = World(kind: FsKind, mkdirOk: bool, openOk: bool,
                         listing: seq<Listed>, container: Container)

  /** Whether the operation `mode` returns True on `path` with no explicit
      output path (the command line never passes one). */
  predicate OperationSucceeds(mode: Mode, path: Path, world: World) {
    match mode
    case CompressMode => CompressSucceeds(path, world.kind, None, world.mkdirOk, world.openOk, world.listing)
    case ExtractMode => ExtractSucceeds(path, world.kind, world.mkdirOk, world.container)
    case NoMode => false
  }

  /** One run of `main` after argument parsing. `raisesBefore` and
      `raisesAfter` say whether the logging of lines 143-157 or of lines
      168-171 raises; the handler of lines 173-177 then sets `success` to
      False. Returns the exit code and the operation that ran. */
  method RunMain(flags: Flags, path: Path, world: World, raisesBefore: bool, raisesAfter: bool)
    returns (code: int, ran: Mode)
    ensures raisesBefore ==> ran == NoMode
    ensures !raisesBefore && flags.compress ==> ran == CompressMode
    ensures !raisesBefore && !flags.compress && flags.extract ==> ran == ExtractMode
    ensures !flags.compress && !flags.extract ==> ran == NoMode
    ensures code == 0 || code == 1
    ensures code == 0 <==> !raisesAfter && OperationSucceeds(ran, path, world)
  {
    var success := false;
    ran := NoMode;
    if !raisesBefore {
      if flags.compress {
        ran := CompressMode;
        var ok, _, _, _ := CompressFolder(path, world.kind, None, world.mkdirOk, world.openOk, world.listing);
        success := ok;
      } else if flags.extract {
        ran := ExtractMode;
        var ok, _, _, _ := ExtractZip(path, world.kind, None, world.mkdirOk, world.container);
        success := ok;
      }
      if raisesAfter {
        success := false;
      }
    }
    code := ExitCode(success);
  }
}
