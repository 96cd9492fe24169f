/**
 * The file system as safe_move sees it: a set of existing path strings, with
 * os.path.exists as membership and shutil.move as moving one entry.
 */
module FileStore {
  import opened Wrappers
  import opened PathOps
  import opened Naming

  /** The two kinds of failure sort_file tells apart when a move raises. */
  datatype MoveError = PermissionDenied | OtherError

  class FileSystem {
    /** Every path that currently exists. */
    var paths: set<string>

    constructor (initial: set<string>)
      ensures paths == initial
    {
      paths := initial;
    }

    /**
     * shutil.move(src, dst). A missing source raises (FileNotFoundError);
     * otherwise `refusal` is the error the operating system raises, if any.
     * A failed move leaves every path in place.
     */
    method Move(src: string, dst: string, refusal: Option<MoveError>) returns (err: Option<MoveError>)
      modifies this
      ensures src !in old(paths) ==> err == Some(OtherError)
      ensures src in old(paths) ==> err == refusal
      ensures err.None? ==> paths == old(paths) - {src} + {dst}
      ensures err.Some? ==> paths == old(paths)
    {
      if src !in paths {
        return Some(OtherError);
      }
      if refusal.Some? {
        return refusal;
      }
      paths := paths - {src} + {dst};
      return None;
    }

    /**
     * safe_move(src, destFolder): tries base+ext, then base(1)ext, base(2)ext, ...
     * inside destFolder until a path does not exist, and moves src there.
     */
    method SafeMove(src: string, destFolder: string, refusal: Option<MoveError>) returns (r: Result<string, MoveError>)
      modifies this
      ensures r.Success? <==> src in old(paths) && refusal.None?
      ensures r.Failure? ==> paths == old(paths) && r.error == (if src in old(paths) then refusal.value else OtherError)
      ensures r.Success? ==> r.value !in old(paths) && r.value in paths && src !in paths
      ensures r.Success? ==> paths == old(paths) - {src} + {r.value}
      ensures r.Success? ==> exists k :: r.value == CandidatePath(destFolder, SourceStem(src), SourceExt(src), k)
                                      && FirstFree(old(paths), destFolder, SourceStem(src), SourceExt(src), k)
      ensures r.Success? ==> destFolder <= r.value && EndsWith(r.value, SourceExt(src))
                             && SourceStem(src) <= BaseName(r.value)
      ensures r.Success? && CandidatePath(destFolder, SourceStem(src), SourceExt(src), 0) !in old(paths) ==>
                r.value == CandidatePath(destFolder, SourceStem(src), SourceExt(src), 0)
    {
      var base, ext := SourceStem(src), SourceExt(src);
      SourcePartsNoSep(src);
      var counter := 1;
      var destPath := Join(destFolder, base + ext);

      while destPath in paths
        invariant paths == old(paths)
        invariant counter >= 1
        invariant destPath == CandidatePath(destFolder, base, ext, counter - 1)
        invariant Tried(destFolder, base, ext, counter - 1) <= paths
        decreases paths - Tried(destFolder, base, ext, counter - 1)
      {
        TriedMembers(destFolder, base, ext, counter - 1, counter - 1);
        destPath := Join(destFolder, base + "(" + Decimal(counter) + ")" + ext);
        counter := counter + 1;
      }
      ChosenCandidate(old(paths), destFolder, base, ext, counter - 1, destPath);
      var err := Move(src, destPath, refusal);
      if err.Some? {
        return Failure(err.value);
      }
      return Success(destPath);
    }
  }
}
