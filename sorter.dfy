/**
 * DownloadSorter: the per-event decision (on_created, then sort_file) and the
 * handler that carries it out on the file system.
 */
module Sorter {
  import opened Wrappers
  import opened PathOps
  import opened Naming
  import opened Classify
  import opened FileStore

  /** A creation event from the watcher: whether it names a directory, and its path. */
  datatype Event = Event(isDirectory: bool, srcPath: string)

  /**
   * is_file_complete's two os.path.getsize readings, taken a wait apart: the
   * first raised FileNotFoundError (and no second one was taken), or the first
   * gave a size and the second gave one or raised.
   */
  datatype Readings = Missing | Sizes(first: nat, second: Option<nat>)

  /** What the handler learns about the path while it runs: os.path.isfile and the size readings. */
  datatype Observations = Observations(isFile: bool, readings: Readings)

  /** EXTENSIONS in file order, and DESTINATION_FOLDERS. */
  datatype Config = Config(categories: seq<Category>, destinations: map<string, string>)

  /** What sort_file decides to do with a path. */
  datatype Decision = Ignore | SkipIncomplete | AwaitDownload | UnknownType | MoveTo(folder: string)

  /** What handling an event ends with. */
  datatype Outcome =
    | NoAction
    | SkippedIncomplete
    | StillDownloading
    | UnknownFileType
    | Moved(finalPath: string)
    | MoveFailed(error: MoveError)

  /** is_file_complete's verdict: both size readings succeeded and agree. */
  predicate IsFileComplete(readings: Readings) {
    readings.Sizes? && readings.second == Some(readings.first)
  }

  /** What sort_file establishes about a path before it decides: the answers to its checks, in order. */
  datatype Checks = Checks(isFile: bool, incomplete: bool, sizeStable: bool, destination: Option<string>)

  /** The answers sort_file gets for a path, given what the file system reports. */
  function RunChecks(config: Config, filePath: string, obs: Observations): Checks {
    var filename := BaseName(filePath);
    Checks(obs.isFile, IsIncomplete(filename), IsFileComplete(obs.readings),
           Route(config.categories, config.destinations, Extension(filename)))
  }

  /**
   * sort_file's early returns, in its order: not a regular file, a
   * partial-download suffix, a size still changing, no destination
   * (`not destination` also rejects an empty folder name), and otherwise a move.
   */
  function Decide(checks: Checks): Decision {
    if !checks.isFile then Ignore
    else if checks.incomplete then SkipIncomplete
    else if !checks.sizeStable then AwaitDownload
    else match checks.destination
      case None => UnknownType
      case Some(folder) => if folder == "" then UnknownType else MoveTo(folder)
  }

  /** What sort_file decides for a path. */
  function SortDecision(config: Config, filePath: string, obs: Observations): Decision {
    Decide(RunChecks(config, filePath, obs))
  }

  /** on_created: directory events are dropped, everything else goes to sort_file. */
  function EventDecision(config: Config, event: Event, obs: Observations): Decision {
    if event.isDirectory then Ignore else SortDecision(config, event.srcPath, obs)
  }

  /**
   * A file is moved exactly when it is a regular file without a partial-download
   * suffix, its two size readings agree, and the first category listing its
   * extension has a non-empty destination folder; the move goes to that folder.
   */
  lemma MoveConditions(config: Config, event: Event, obs: Observations, folder: string)
    ensures EventDecision(config, event, obs) == MoveTo(folder) <==>
      var filename := BaseName(event.srcPath);
      var m := FirstMatch(config.categories, Extension(filename));
      && !event.isDirectory
      && obs.isFile
      && !IsIncomplete(filename)
      && IsFileComplete(obs.readings)
      && folder != ""
      && m.Some?
      && config.categories[m.value].name in config.destinations
      && config.destinations[config.categories[m.value].name] == folder
  {
    if !event.isDirectory {
      var filename := BaseName(event.srcPath);
      var ext := Extension(filename);
      var checks := RunChecks(config, event.srcPath, obs);
      assert EventDecision(config, event, obs) == Decide(checks);
      DecideMoves(checks, folder);
      RouteTo(config.categories, config.destinations, ext, folder);
    }
  }

  /** The chain ends in a move into `folder` exactly when every check passes and the route is that non-empty folder. */
  lemma DecideMoves(checks: Checks, folder: string)
    ensures Decide(checks) == MoveTo(folder) <==>
      checks.isFile && !checks.incomplete && checks.sizeStable && folder != "" && checks.destination == Some(folder)
  {
  }

  /** Directory events and paths that are not regular files never lead to any action. */
  lemma NonFilesIgnored(config: Config, event: Event, obs: Observations)
    requires event.isDirectory || !obs.isFile
    ensures EventDecision(config, event, obs) == Ignore
  {
  }

  /**
   * A file with a partial-download suffix is skipped before its size is read
   * or its extension looked up: neither the readings nor the config matter.
   */
  lemma IncompleteSkippedFirst(config: Config, config': Config, filePath: string, obs: Observations, obs': Observations)
    requires obs.isFile && obs'.isFile
    requires IsIncomplete(BaseName(filePath))
    ensures SortDecision(config, filePath, obs) == SortDecision(config', filePath, obs') == SkipIncomplete
  {
  }

  /** A file whose size cannot be read, or is still changing, is left for later. */
  lemma UnstableSizeAwaited(config: Config, filePath: string, obs: Observations)
    requires obs.isFile && !IsIncomplete(BaseName(filePath))
    requires obs.readings.Missing? || obs.readings.second != Some(obs.readings.first)
    ensures SortDecision(config, filePath, obs) == AwaitDownload
  {
  }

  /**
   * A stable, complete regular file is of unknown type exactly when no category
   * lists its extension, the first that does has no folder, or that folder is
   * the empty string.
   */
  lemma UnknownWhenUnrouted(config: Config, filePath: string, obs: Observations)
    requires obs.isFile && IsFileComplete(obs.readings)
    ensures !IsIncomplete(BaseName(filePath)) ==>
      var m := FirstMatch(config.categories, Extension(BaseName(filePath)));
      (SortDecision(config, filePath, obs) == UnknownType <==>
        || m.None?
        || config.categories[m.value].name !in config.destinations
        || config.destinations[config.categories[m.value].name] == "")
  {
    var filename := BaseName(filePath);
    if !IsIncomplete(filename) {
      var ext := Extension(filename);
      var route := Route(config.categories, config.destinations, ext);
      assert RunChecks(config, filePath, obs) == Checks(true, false, true, route);
      NoUsableRoute(config.categories, config.destinations, ext);
    }
  }

  /**
   * A first matching category without a folder hides a later one that has a
   * folder: a stable pdf file is of unknown type.
   */
  lemma ShadowedCategoryIsUnknown(filePath: string, obs: Observations)
    requires obs.isFile && IsFileComplete(obs.readings)
    requires !IsIncomplete(BaseName(filePath)) && Extension(BaseName(filePath)) == "pdf"
    ensures var config := Config([Category("Archive", ["pdf"]), Category("Documents", ["pdf"])],
                                 map["Documents" := "/home/u/Documents"]);
      SortDecision(config, filePath, obs) == UnknownType
  {
    var config := Config([Category("Archive", ["pdf"]), Category("Documents", ["pdf"])],
                         map["Documents" := "/home/u/Documents"]);
    RouteByFirstListing(config.categories, config.destinations, "pdf", 0);
    assert RunChecks(config, filePath, obs) == Checks(true, false, true, None);
  }

  /**
   * A move into `folder` as safe_move performs it: it succeeds exactly when the
   * source still exists and the operating system does not refuse; a failure
   * changes nothing; a success takes the source away and adds a path that did
   * not exist, the first free one of base+ext, base(1)ext, ... in the folder.
   */
  ghost predicate Relocated(before: set<string>, after: set<string>, src: string, folder: string,
                            refusal: Option<MoveError>, outcome: Outcome) {
    && (outcome.Moved? || outcome.MoveFailed?)
    && (outcome.Moved? <==> src in before && refusal.None?)
    && (outcome.MoveFailed? ==>
          after == before && outcome.error == (if src in before then refusal.value else OtherError))
    && (outcome.Moved? ==>
          && outcome.finalPath !in before
          && after == before - {src} + {outcome.finalPath}
          && folder <= outcome.finalPath
          && EndsWith(outcome.finalPath, SourceExt(src))
          && exists k :: outcome.finalPath == CandidatePath(folder, SourceStem(src), SourceExt(src), k)
                      && FirstFree(before, folder, SourceStem(src), SourceExt(src), k))
  }

  /** How handling a path ends, given sort_file's decision for it. */
  ghost predicate Handled(decision: Decision, before: set<string>, after: set<string>, src: string,
                          refusal: Option<MoveError>, outcome: Outcome) {
    match decision
    case Ignore => outcome == NoAction && after == before
    case SkipIncomplete => outcome == SkippedIncomplete && after == before
    case AwaitDownload => outcome == StillDownloading && after == before
    case UnknownType => outcome == UnknownFileType && after == before
    case MoveTo(folder) => Relocated(before, after, src, folder, refusal, outcome)
  }

  /**
   * DownloadSorter.sort_file: run the checks and, if the file is to be moved,
   * safe_move it into its folder. `refusal` is the error the operating system
   * raises when asked to move the file, if any.
   */
  method SortFile(fs: FileSystem, config: Config, filePath: string, obs: Observations, refusal: Option<MoveError>)
    returns (outcome: Outcome)
    modifies fs
    ensures Handled(SortDecision(config, filePath, obs), old(fs.paths), fs.paths, filePath, refusal, outcome)
  {
    ghost var checks := RunChecks(config, filePath, obs);
    assert SortDecision(config, filePath, obs) == Decide(checks);
    if !obs.isFile {
      return NoAction;
    }
    var filename := BaseName(filePath);
    var fileExt := Extension(filename);
    if IsIncomplete(filename) {
      assert checks.incomplete;
      return SkippedIncomplete;
    }
    if !IsFileComplete(obs.readings) {
      assert !checks.incomplete && !checks.sizeStable;
      return StillDownloading;
    }
    var destination := ResolveDestination(config.categories, config.destinations, fileExt);
    assert checks == Checks(true, false, true, destination);
    if destination.None? || destination.value == "" {
      return UnknownFileType;
    }
    assert Decide(checks) == MoveTo(destination.value);
    var moved := fs.SafeMove(filePath, destination.value, refusal);
    match moved {
      case Success(finalPath) => outcome := Moved(finalPath);
      case Failure(e) => outcome := MoveFailed(e);
    }
  }

  /** DownloadSorter.on_created: ignore directories, sort everything else. */
  method OnCreated(fs: FileSystem, config: Config, event: Event, obs: Observations, refusal: Option<MoveError>)
    returns (outcome: Outcome)
    modifies fs
    ensures Handled(EventDecision(config, event, obs), old(fs.paths), fs.paths, event.srcPath, refusal, outcome)
  {
    if event.isDirectory {
      return NoAction;
    }
    outcome := SortFile(fs, config, event.srcPath, obs, refusal);
  }
}
