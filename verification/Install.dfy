/**
 * Installing the provider binaries, `pkg/install/install.go`: each is copied to a temporary name
 * next to its target and renamed.  A ghost trace records the directory after every change, so that
 * it holds every state in which the run could be cut off.
 */
module Install {
  import opened Wrappers
  import opened Strings
  import opened Bytes
  import opened Comparison

  type Files = map<string, Node>

  const TMP := ".tmp"
  const NEW_FILE_MODE := 0x1b6

  /** The file with which `fileutil.IsDirWriteable` tries out a directory. */
  const PROBE := ".touch"
  const PROBE_MODE := 0x180

  function Lookup(dir: Files, name: string): Option<Node> {
    if name in dir then Some(dir[name]) else None
  }

  /** The two directories differ at most at these names. */
  ghost predicate SameExcept(a: Files, b: Files, names: set<string>) {
    forall t :: t !in names ==> Lookup(a, t) == Lookup(b, t)
  }

  datatype Error =
    | NotWriteable
    | CompareFailed(name: string)
    | CopyFailed(name: string)
    | IsADirectory(name: string)

  /** What the system lets the probe do. */
  datatype Probe = Works | CannotWrite | CannotRemove

  /** How the reads and writes for one binary go. */
  datatype IO = IO(sourceReads: Schedule, targetReads: Schedule, writes: Schedule)

  /** No write fails before all of the contents are written. */
  predicate WritesSucceed(length: nat, writes: Schedule, position: nat, write: nat)
    requires position <= length
    decreases length - position
  {
    position < length ==>
      writes(write).Deliver? &&
      WritesSucceed(length, writes, position + Piece(length, position, writes(write)).0, write + 1)
  }

  predicate CanCopy(dir: Files, file: File, name: string, writes: Schedule) {
    Lookup(dir, name) != Some(Directory) && WritesSucceed(|file.content|, writes, 0, 0)
  }

  predicate CanProbe(dir: Files, probe: Probe) {
    probe.Works? && Lookup(dir, PROBE) != Some(Directory)
  }

  /** The probe's file is there, emptied if it was there before. */
  function Probed(dir: Files): (probed: Files)
    requires Lookup(dir, PROBE) != Some(Directory)
    ensures SameExcept(dir, probed, {PROBE}) && PROBE in probed && probed[PROBE].Regular?
    ensures probed[PROBE].file.content == [] && (PROBE in dir ==> probed[PROBE].file.mode == dir[PROBE].file.mode)
  {
    dir[PROBE := Regular(File([], if PROBE in dir then dir[PROBE].file.mode else PROBE_MODE))]
  }

  class TargetDirectory {
    var files: Files
    ghost var trace: seq<Files>

    constructor (files: Files)
      ensures this.files == files && trace == []
    {
      this.files, trace := files, [];
    }

    /** Gives the file of this name this content, or makes it. */
    method Put(name: string, file: File)
      modifies this
      ensures files == old(files)[name := Regular(file)] && trace == old(trace) + [files]
    {
      files := files[name := Regular(file)];
      trace := trace + [files];
    }

    method Remove(name: string)
      modifies this
      ensures files == old(files) - {name} && trace == old(trace) + [files]
    {
      files := files - {name};
      trace := trace + [files];
    }

    /** `os.Rename` of a file: it takes the place of a file, but not of a directory. */
    method Rename(name: string, to: string) returns (ok: bool)
      requires name in files && files[name].Regular? && name != to
      modifies this
      ensures ok <==> Lookup(old(files), to) != Some(Directory)
      ensures ok ==> files == (old(files) - {name})[to := old(files)[name]] && trace == old(trace) + [files]
      ensures !ok ==> files == old(files) && trace == old(trace)
    {
      if to in files && files[to].Directory? {
        return false;
      }
      files := (files - {name})[to := files[name]];
      trace := trace + [files];
      return true;
    }

    /** `ensureDirExists`: the directory is probed by writing a file and removing it. */
    method EnsureDirExists(probe: Probe) returns (ok: bool)
      modifies this
      ensures ok <==> probe.Works? && !(PROBE in old(files) && old(files)[PROBE].Directory?)
      ensures ok ==> files == old(files) - {PROBE} && trace == old(trace) + [Probed(old(files)), files]
      ensures !ok ==>
        || (files == old(files) && trace == old(trace))
        || (Lookup(old(files), PROBE) != Some(Directory) && files == Probed(old(files)) &&
            trace == old(trace) + [files])
    {
      if (PROBE in files && files[PROBE].Directory?) || probe.CannotWrite? {
        return false;
      }
      Put(PROBE, File([], if PROBE in files then files[PROBE].file.mode else PROBE_MODE));
      if probe.CannotRemove? {
        return false;
      }
      Remove(PROBE);
      return true;
    }

    /** Copies a file: the target is created or truncated, given its mode, and filled piece by piece. */
    method Copy(file: File, name: string, writes: Schedule) returns (ok: bool)
      modifies this
      ensures old(trace) <= trace
      ensures forall i :: |old(trace)| <= i < |trace| ==> SameExcept(old(files), trace[i], {name})
      ensures ok <==>
        !(name in old(files) && old(files)[name].Directory?) && WritesSucceed(|file.content|, writes, 0, 0)
      ensures ok ==> files == old(files)[name := Regular(file)]
      ensures !ok ==>
        if Lookup(old(files), name) == Some(Directory) then files == old(files)
        else exists n :: 0 <= n < |file.content| &&
                         files == old(files)[name := Regular(File(file.content[..n], file.mode))]
    {
      if name in files && files[name].Directory? {
        return false;
      }
      var mode := if name in files then files[name].file.mode else NEW_FILE_MODE;
      Put(name, File([], mode));
      Put(name, File([], file.mode));
      var position, writeCount := 0, 0;
      while position < |file.content|
        invariant position <= |file.content|
        invariant old(trace) <= trace
        invariant files == old(files)[name := Regular(File(file.content[..position], file.mode))]
        invariant forall i :: |old(trace)| <= i < |trace| ==> SameExcept(old(files), trace[i], {name})
        invariant WritesSucceed(|file.content|, writes, 0, 0) <==>
                  WritesSucceed(|file.content|, writes, position, writeCount)
      {
        var (n, err) := Piece(|file.content|, position, writes(writeCount));
        if err != NoError {
          return false;
        }
        Put(name, File(file.content[..position + n], file.mode));
        position, writeCount := position + n, writeCount + 1;
      }
      assert file.content[..position] == file.content;
      return true;
    }

    /** Brings one target up to date; one that is so already is left alone. */
    method CopyFileAndPermissions(src: File, dst: string, io: IO) returns (r: Result<(), Error>)
      modifies this
      ensures old(trace) <= trace
      ensures forall i :: |old(trace)| <= i < |trace| ==> TargetIsWhole(old(files), trace[i], dst, src)
      ensures TargetIsWhole(old(files), files, dst, src)
      ensures r == PlaceVerdict(old(files), dst, src, io)
      ensures r.Success? ==> files == Placed(old(files), dst, src, io)
      ensures IsUpToDate(old(files), dst, src, io) ==> files == old(files) && trace == old(trace)
    {
      var upToDate := DestinationUpToDate(src, Lookup(files, dst), io.sourceReads, io.targetReads);
      if upToDate.Failure? {
        return Failure(CompareFailed(dst));
      }
      if upToDate.value {
        return Success(());
      }
      var dstTmp := dst + TMP;
      WritesToTmpAreWhole(dst, src);
      var copied := Copy(src, dstTmp, io.writes);
      if !copied {
        return Failure(CopyFailed(dst));
      }
      var renamed := Rename(dstTmp, dst);
      if !renamed {
        return Failure(IsADirectory(dst));
      }
      return Success(());
    }
  }

  /** Only the target and its temporary may differ, and the target is as it was or complete. */
  ghost predicate TargetIsWhole(before: Files, dir: Files, dst: string, src: File) {
    && SameExcept(before, dir, {dst, dst + TMP})
    && (Lookup(dir, dst) == Lookup(before, dst) || Lookup(dir, dst) == Some(Regular(src)))
  }

  lemma WritesToTmpAreWhole(dst: string, src: File)
    ensures forall before, dir :: SameExcept(before, dir, {dst + TMP}) ==> TargetIsWhole(before, dir, dst, src)
  {
    assert |dst| != |dst + TMP|;
  }

  predicate IsUpToDate(dir: Files, dst: string, src: File, io: IO) {
    UpToDate(src, Lookup(dir, dst), io.sourceReads, io.targetReads) == Success(true)
  }

  /** The directory once a target is up to date; the temporary, if it was needed, is gone. */
  function Placed(dir: Files, dst: string, src: File, io: IO): Files {
    if IsUpToDate(dir, dst, src, io) then dir else (dir - {dst + TMP})[dst := Regular(src)]
  }

  /** Whether bringing a target up to date succeeds, and with which error it fails. */
  function PlaceVerdict(dir: Files, dst: string, src: File, io: IO): Result<(), Error> {
    if UpToDate(src, Lookup(dir, dst), io.sourceReads, io.targetReads).Failure? then Failure(CompareFailed(dst))
    else if IsUpToDate(dir, dst, src, io) then Success(())
    else if !CanCopy(dir, src, dst + TMP, io.writes) then Failure(CopyFailed(dst))
    else if Lookup(dir, dst) == Some(Directory) then Failure(IsADirectory(dst))
    else Success(())
  }

  // ---------- The whole installation ----------

  datatype Config = Config(skipBinaries: seq<string>, updateBinaries: bool)

  method SkipBinary(c: Config, binary: string) returns (skip: bool)
    ensures skip <==> binary in c.skipBinaries
  {
    for i := 0 to |c.skipBinaries|
      invariant binary !in c.skipBinaries[..i]
    {
      if c.skipBinaries[i] == binary {
        return true;
      }
    }
    return false;
  }

  predicate FileExists(dir: Files, name: string) {
    name in dir && dir[name].Regular?
  }

  /** What `os.ReadDir` lists: the names of the sources in string order. */
  ghost predicate IsListing(names: seq<string>, sources: map<string, File>) {
    && (forall name :: name in names <==> name in sources)
    && IsSorted(names)
  }

  ghost predicate IsSorted(names: seq<string>) {
    forall i, j :: 0 <= i < j < |names| ==> Less(names[i], names[j])
  }

  predicate AreSources(names: seq<string>, sources: map<string, File>) {
    forall name :: name in names ==> name in sources
  }

  /** There is nothing to do for this name. */
  predicate IsPassedOver(c: Config, dir: Files, name: string) {
    name in c.skipBinaries || (FileExists(dir, name) && !c.updateBinaries)
  }

  /** There is nothing to do, or nothing is left to do, for this name. */
  predicate IsDone(c: Config, dir: Files, name: string, src: File, io: IO) {
    IsPassedOver(c, dir, name) || IsUpToDate(dir, name, src, io)
  }

  function InstallOne(c: Config, dir: Files, name: string, src: File, io: IO): Files {
    if IsPassedOver(c, dir, name) then dir else Placed(dir, name, src, io)
  }

  function StepVerdict(c: Config, dir: Files, name: string, src: File, io: IO): Result<(), Error> {
    if IsPassedOver(c, dir, name) then Success(()) else PlaceVerdict(dir, name, src, io)
  }

  /** What one step may do to the directory: nothing for a skipped name. */
  ghost predicate StepIsWhole(c: Config, before: Files, dir: Files, name: string, src: File) {
    if name in c.skipBinaries then dir == before else TargetIsWhole(before, dir, name, src)
  }

  /** One round of the loop over the binaries. */
  method InstallBinary(c: Config, target: TargetDirectory, binary: string, src: File, io: IO)
    returns (r: Result<(), Error>)
    modifies target
    ensures IsStep(c, binary, src, io, old(target.files), old(target.trace), target.files, target.trace, r)
  {
    var skip := SkipBinary(c, binary);
    if skip {
      return Success(());
    }
    var present := FileExists(target.files, binary);
    if present && !c.updateBinaries {
      return Success(());
    }
    r := target.CopyFileAndPermissions(src, binary, io);
  }

  /** The target directory after successful steps for the names, one after the other. */
  function Installed(c: Config, sources: map<string, File>, dir: Files, names: seq<string>, io: string -> IO): Files
    requires AreSources(names, sources)
  {
    if names == [] then dir
    else
      var init, name := Installed(c, sources, dir, names[..|names| - 1], io), names[|names| - 1];
      InstallOne(c, init, name, sources[name], io(name))
  }

  /** Success, or the error of the first step that fails. */
  function Verdict(c: Config, sources: map<string, File>, dir: Files, names: seq<string>,
      io: string -> IO): Result<(), Error>
    requires AreSources(names, sources)
  {
    if names == [] then Success(())
    else
      var init, name := names[..|names| - 1], names[|names| - 1];
      var before := Verdict(c, sources, dir, init, io);
      if before.Failure? then before
      else StepVerdict(c, Installed(c, sources, dir, init, io), name, sources[name], io(name))
  }

  /** The outcome of a run: the probe, and then the steps in the directory without the probe's file. */
  function RunVerdict(
      c: Config, sources: map<string, File>, dir: Files, names: seq<string>, probe: Probe,
      io: string -> IO): Result<(), Error>
    requires AreSources(names, sources)
  {
    if CanProbe(dir, probe) then Verdict(c, sources, dir - {PROBE}, names, io) else Failure(NotWriteable)
  }

  /** The target directory after a successful run. */
  function AfterRun(c: Config, sources: map<string, File>, dir: Files, names: seq<string>, io: string -> IO): Files
    requires AreSources(names, sources)
  {
    Installed(c, sources, dir - {PROBE}, names, io)
  }

  /**
   * Every name but the probe's and the temporaries of sources that are installed stands for what it
   * stood for before, or for the complete source of that name.
   */
  ghost predicate IsSafe(c: Config, sources: map<string, File>, before: Files, dir: Files) {
    forall t :: t != PROBE && !IsTemporary(c, sources, t) ==>
      Lookup(dir, t) == Lookup(before, t) ||
      (IsInstalledSource(c, sources, t) && Lookup(dir, t) == Some(Regular(sources[t])))
  }

  predicate IsInstalledSource(c: Config, sources: map<string, File>, t: string) {
    t in sources && t !in c.skipBinaries
  }

  ghost predicate IsTemporary(c: Config, sources: map<string, File>, t: string) {
    exists name :: IsInstalledSource(c, sources, name) && t == name + TMP
  }

  lemma StepIsSafe(
      c: Config, sources: map<string, File>, before: Files, middle: Files, dir: Files, name: string)
    requires name in sources && IsSafe(c, sources, before, middle)
    requires StepIsWhole(c, middle, dir, name, sources[name])
    ensures IsSafe(c, sources, before, dir)
  {
    if name !in c.skipBinaries {
      assert IsInstalledSource(c, sources, name);
      forall t | t != PROBE && !IsTemporary(c, sources, t)
        ensures Lookup(dir, t) == Lookup(before, t) ||
                (IsInstalledSource(c, sources, t) && Lookup(dir, t) == Some(Regular(sources[t])))
      {
        assert t != name + TMP;
        assert t != name ==> Lookup(dir, t) == Lookup(middle, t);
      }
    }
  }

  lemma InstalledSnoc(
      c: Config, sources: map<string, File>, dir: Files, names: seq<string>, io: string -> IO, name: string)
    requires AreSources(names, sources) && name in sources
    ensures AreSources(names + [name], sources)
    ensures var before := Installed(c, sources, dir, names, io);
            && Installed(c, sources, dir, names + [name], io) == InstallOne(c, before, name, sources[name], io(name))
            && Verdict(c, sources, dir, names + [name], io) ==
               if Verdict(c, sources, dir, names, io).Failure? then Verdict(c, sources, dir, names, io)
               else StepVerdict(c, before, name, sources[name], io(name))
  {
    assert (names + [name])[..|names|] == names;
  }

  lemma {:induction false} FailureStays(
      c: Config, sources: map<string, File>, dir: Files, names: seq<string>, io: string -> IO, i: nat)
    requires i <= |names| && AreSources(names, sources)
    requires Verdict(c, sources, dir, names[..i], io).Failure?
    ensures Verdict(c, sources, dir, names, io) == Verdict(c, sources, dir, names[..i], io)
    decreases |names| - i
  {
    if i < |names| {
      InstalledSnoc(c, sources, dir, names[..i], io, names[i]);
      assert names[..i + 1] == names[..i] + [names[i]];
      FailureStays(c, sources, dir, names, io, i + 1);
    } else {
      assert names[..i] == names;
    }
  }

  /** Nothing is left to do: the probe's file is not there, and every source is passed over or up to date. */
  ghost predicate IsSettled(c: Config, sources: map<string, File>, dir: Files, io: string -> IO) {
    PROBE !in dir && forall name :: name in sources ==> IsDone(c, dir, name, sources[name], io(name))
  }

  /** Every state in the trace since its beginning is safe. */
  ghost predicate IsSafeTrace(
    c: Config, sources: map<string, File>, before: Files, beginning: seq<Files>, trace: seq<Files>)
  {
    beginning <= trace && forall i :: |beginning| <= i < |trace| ==> IsSafe(c, sources, before, trace[i])
  }

  /** What a run has come to once the names are done; it began with the directory and trace given. */
  ghost predicate IsUnderway(c: Config, sources: map<string, File>, before: Files, beginning: seq<Files>,
                             names: seq<string>, io: string -> IO, files: Files, trace: seq<Files>)
    requires AreSources(names, sources)
  {
    && IsSafeTrace(c, sources, before, beginning, trace) && IsSafe(c, sources, before, files)
    && files == AfterRun(c, sources, before, names, io)
    && Verdict(c, sources, before - {PROBE}, names, io).Success?
    && (IsSettled(c, sources, before, io) ==> files == before && trace == beginning + [Probed(before), before])
  }

  /** The directory and the trace after one more step, successful or not. */
  ghost predicate IsStep(c: Config, name: string, src: File, io: IO, files: Files, trace: seq<Files>,
                         files': Files, trace': seq<Files>, r: Result<(), Error>)
  {
    && trace <= trace' && (forall i :: |trace| <= i < |trace'| ==> StepIsWhole(c, files, trace'[i], name, src))
    && StepIsWhole(c, files, files', name, src)
    && r == StepVerdict(c, files, name, src, io)
    && (r.Success? ==> files' == InstallOne(c, files, name, src, io))
    && (IsDone(c, files, name, src, io) ==> files' == files && trace' == trace)
  }

  lemma NextStep(c: Config, sources: map<string, File>, before: Files, beginning: seq<Files>, names: seq<string>,
                 io: string -> IO, files: Files, trace: seq<Files>, name: string,
                 files': Files, trace': seq<Files>, r: Result<(), Error>)
    requires AreSources(names, sources) && name in sources
    requires IsUnderway(c, sources, before, beginning, names, io, files, trace)
    requires IsStep(c, name, sources[name], io(name), files, trace, files', trace', r)
    ensures AreSources(names + [name], sources)
    ensures IsSafeTrace(c, sources, before, beginning, trace') && IsSafe(c, sources, before, files')
    ensures r == Verdict(c, sources, before - {PROBE}, names + [name], io)
    ensures r.Success? ==> IsUnderway(c, sources, before, beginning, names + [name], io, files', trace')
  {
    InstalledSnoc(c, sources, before - {PROBE}, names, io, name);
    StepIsSafe(c, sources, before, files, files', name);
    forall i | |beginning| <= i < |trace'| ensures IsSafe(c, sources, before, trace'[i]) {
      if |trace| <= i {
        StepIsSafe(c, sources, before, files, trace'[i], name);
      } else {
        assert trace'[i] == trace[i];
      }
    }
    hide IsSafe, StepIsWhole, InstallOne, StepVerdict;
  }

  /** The loop over the binaries, once the directory is known to be writeable. */
  method InstallBinaries(c: Config, sources: map<string, File>, names: seq<string>, target: TargetDirectory,
                         io: string -> IO, ghost before: Files, ghost beginning: seq<Files>)
    returns (r: Result<(), Error>)
    requires AreSources(names, sources)
    requires IsUnderway(c, sources, before, beginning, [], io, target.files, target.trace)
    modifies target
    ensures IsSafeTrace(c, sources, before, beginning, target.trace) && IsSafe(c, sources, before, target.files)
    ensures r == Verdict(c, sources, before - {PROBE}, names, io)
    ensures r.Success? ==> IsUnderway(c, sources, before, beginning, names, io, target.files, target.trace)
  {
    ghost var done := [];
    for i := 0 to |names|
      invariant done == names[..i]
      invariant IsUnderway(c, sources, before, beginning, done, io, target.files, target.trace)
    {
      ghost var files, trace := target.files, target.trace;
      r := InstallBinary(c, target, names[i], sources[names[i]], io(names[i]));
      NextStep(c, sources, before, beginning, done, io, files, trace, names[i], target.files, target.trace, r);
      done := done + [names[i]];
      assert done == names[..i + 1];
      if r.Failure? {
        FailureStays(c, sources, before - {PROBE}, names, io, i + 1);
        return;
      }
    }
    assert names[..|names|] == names;
    return Success(());
  }

  lemma {:induction false} SettledSucceeds(
      c: Config, sources: map<string, File>, dir: Files, names: seq<string>, io: string -> IO)
    requires AreSources(names, sources) && IsSettled(c, sources, dir, io)
    ensures Installed(c, sources, dir, names, io) == dir && Verdict(c, sources, dir, names, io).Success?
  {
    if names != [] {
      SettledSucceeds(c, sources, dir, names[..|names| - 1], io);
      assert names[|names| - 1] in sources;
    }
  }

  /**
   * In every state of every run, however it ends or is cut off, the directory is safe; and a run with
   * nothing left to do leaves no trace but the probe's.
   */
  method Install(c: Config, sources: map<string, File>, names: seq<string>, target: TargetDirectory,
                 probe: Probe, io: string -> IO)
    returns (r: Result<(), Error>)
    requires IsListing(names, sources)
    modifies target
    ensures IsSafeTrace(c, sources, old(target.files), old(target.trace), target.trace)
    ensures IsSafe(c, sources, old(target.files), target.files)
    ensures r == RunVerdict(c, sources, old(target.files), names, probe, io)
    ensures r.Success? ==> target.files == AfterRun(c, sources, old(target.files), names, io)
    ensures IsSettled(c, sources, old(target.files), io) && probe.Works? ==>
      && r.Success? && target.files == old(target.files)
      && target.trace == old(target.trace) + [Probed(old(target.files)), old(target.files)]
  {
    ghost var beginning, before := target.trace, target.files;
    var writeable := target.EnsureDirExists(probe);
    if !writeable {
      return Failure(NotWriteable);
    }
    assert IsSafe(c, sources, before, target.files);
    assert PROBE !in before ==> before - {PROBE} == before;
    assert IsUnderway(c, sources, before, beginning, [], io, target.files, target.trace);
    hide IsSafe, IsSafeTrace, Verdict, Installed, IsSettled, Probed;
    r := InstallBinaries(c, sources, names, target, io, before, beginning);
    if IsSettled(c, sources, before, io) {
      SettledSucceeds(c, sources, before, names, io);
    }
  }
}
