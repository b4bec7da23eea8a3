/**
 * What a run of the installer achieves, when it succeeds, and what a second run does.
 */
module InstallResults {
  import opened Wrappers
  import opened Strings
  import opened Comparison
  import opened Install

  // ---------- When a step fails ----------

  /** Writing succeeds exactly when some number of writes, none of them failing, delivers everything. */
  lemma WritesSucceedIff(length: nat, writes: Schedule)
    ensures WritesSucceed(length, writes, 0, 0) <==> exists n :: WritesAll(length, writes, n)
  {
    if WritesSucceed(length, writes, 0, 0) {
      var n := EnoughWrites(length, writes, 0);
    }
    if n: nat :| WritesAll(length, writes, n) {
      WritesLeft(length, writes, 0, n);
    }
  }

  predicate WritesAll(length: nat, writes: Schedule, n: nat) {
    (forall j :: 0 <= j < n ==> writes(j).Deliver?) && Delivered(length, writes, n) == length
  }

  lemma {:induction false} EnoughWrites(length: nat, writes: Schedule, i: nat) returns (n: nat)
    requires forall j :: 0 <= j < i ==> writes(j).Deliver?
    requires WritesSucceed(length, writes, Delivered(length, writes, i), i)
    ensures WritesAll(length, writes, n)
    decreases length - Delivered(length, writes, i)
  {
    if Delivered(length, writes, i) == length {
      n := i;
    } else {
      n := EnoughWrites(length, writes, i + 1);
    }
  }

  lemma {:induction false} WritesLeft(length: nat, writes: Schedule, i: nat, n: nat)
    requires i <= n && WritesAll(length, writes, n)
    ensures WritesSucceed(length, writes, Delivered(length, writes, i), i)
    decreases n - i
  {
    if i < n {
      WritesLeft(length, writes, i + 1, n);
    }
  }

  /** Which error a step ends in, and that there is no other. */
  lemma StepFailsIff(c: Config, dir: Files, name: string, src: File, io: IO)
    ensures var r := StepVerdict(c, dir, name, src, io);
            var verdict := UpToDate(src, Lookup(dir, name), io.sourceReads, io.targetReads);
            var isFile := name in dir && dir[name].Regular?;
            var isCopied := name !in c.skipBinaries && (isFile ==> c.updateBinaries && verdict == Success(false));
            var canCopy := WritesSucceed(|src.content|, io.writes, 0, 0) &&
                           !(name + ".tmp" in dir && dir[name + ".tmp"].Directory?);
            && (r == Failure(CompareFailed(name)) <==>
                  name !in c.skipBinaries && isFile && c.updateBinaries && verdict.Failure?)
            && (r == Failure(CopyFailed(name)) <==> isCopied && !canCopy)
            && (r == Failure(IsADirectory(name)) <==> isCopied && canCopy && name in dir && dir[name].Directory?)
            && (r.Failure? ==> r.error in {CompareFailed(name), CopyFailed(name), IsADirectory(name)})
  {
    UpToDateFailsIff(src, Lookup(dir, name), io.sourceReads, io.targetReads);
    var verdict := UpToDate(src, Lookup(dir, name), io.sourceReads, io.targetReads);
    assert name + ".tmp" == name + TMP;
    assert verdict.Success? && !verdict.value ==> !IsUpToDate(dir, name, src, io);
  }

  // ---------- When a run succeeds ----------

  /** A run fails exactly when some step fails, in the directory the steps before it lead to. */
  lemma {:induction false} FailsIffAStepFails(
      c: Config, sources: map<string, File>, dir: Files, names: seq<string>, io: string -> IO)
    requires AreSources(names, sources)
    ensures Verdict(c, sources, dir, names, io).Failure? <==>
            exists i :: 0 <= i < |names| && StepFails(c, sources, dir, names, io, i)
  {
    if names != [] {
      var init := names[..|names| - 1];
      FailsIffAStepFails(c, sources, dir, init, io);
      forall i | 0 <= i < |init|
        ensures StepFails(c, sources, dir, names, io, i) <==> StepFails(c, sources, dir, init, io, i)
      {
        assert names[..i] == init[..i];
      }
      assert StepFails(c, sources, dir, names, io, |init|) <==>
             StepVerdict(c, Installed(c, sources, dir, init, io), names[|init|],
                         sources[names[|init|]], io(names[|init|])).Failure?;
      if i :| 0 <= i < |init| && StepFails(c, sources, dir, init, io, i) {
        assert StepFails(c, sources, dir, names, io, i);
      }
    }
  }

  predicate StepFails(
    c: Config, sources: map<string, File>, dir: Files, names: seq<string>, io: string -> IO, i: nat)
    requires i < |names| && AreSources(names, sources)
  {
    var before := Installed(c, sources, dir, names[..i], io);
    StepVerdict(c, before, names[i], sources[names[i]], io(names[i])).Failure?
  }

  /** The error is that of the first step that fails. */
  lemma FirstFailureIsTheError(
      c: Config, sources: map<string, File>, dir: Files, names: seq<string>, io: string -> IO, i: nat)
    requires i < |names| && AreSources(names, sources)
    requires StepFails(c, sources, dir, names, io, i)
    requires forall j :: 0 <= j < i ==> !StepFails(c, sources, dir, names, io, j)
    ensures var before := Installed(c, sources, dir, names[..i], io);
            Verdict(c, sources, dir, names, io) == StepVerdict(c, before, names[i], sources[names[i]], io(names[i]))
  {
    FailsIffAStepFails(c, sources, dir, names[..i], io);
    forall j | 0 <= j < i ensures !StepFails(c, sources, dir, names[..i], io, j) {
      assert names[..i][..j] == names[..j];
      assert !StepFails(c, sources, dir, names, io, j);
    }
    InstalledSnoc(c, sources, dir, names[..i], io, names[i]);
    assert names[..i + 1] == names[..i] + [names[i]];
    FailureStays(c, sources, dir, names, io, i + 1);
  }

  /** A run gives up before its first step exactly when the probe does not work or finds a directory. */
  lemma NotWriteableIff(c: Config, sources: map<string, File>, dir: Files, names: seq<string>, probe: Probe,
                        io: string -> IO)
    requires AreSources(names, sources)
    ensures RunVerdict(c, sources, dir, names, probe, io) == Failure(NotWriteable) <==>
            !probe.Works? || (".touch" in dir && dir[".touch"].Directory?)
    ensures probe.Works? && !(".touch" in dir && dir[".touch"].Directory?) ==>
              RunVerdict(c, sources, dir, names, probe, io) == Verdict(c, sources, dir - {".touch"}, names, io)
  {
    StepsFindItWriteable(c, sources, dir - {PROBE}, names, io);
  }

  lemma {:induction false} StepsFindItWriteable(
      c: Config, sources: map<string, File>, dir: Files, names: seq<string>, io: string -> IO)
    requires AreSources(names, sources)
    ensures Verdict(c, sources, dir, names, io) != Failure(NotWriteable)
  {
    if names != [] {
      StepsFindItWriteable(c, sources, dir, names[..|names| - 1], io);
    }
  }

  ghost predicate ReadsNeverFail(io: IO) {
    forall i :: io.sourceReads(i).Deliver? && io.targetReads(i).Deliver?
  }

  /** No directory stands where a source or its temporary goes. */
  ghost predicate IsClear(c: Config, sources: map<string, File>, dir: Files) {
    forall name :: IsInstalledSource(c, sources, name) ==>
      Lookup(dir, name) != Some(Directory) && Lookup(dir, name + TMP) != Some(Directory)
  }

  lemma {:induction false} StaysClear(
      c: Config, sources: map<string, File>, dir: Files, names: seq<string>, io: string -> IO)
    requires AreSources(names, sources) && IsClear(c, sources, dir)
    ensures IsClear(c, sources, Installed(c, sources, dir, names, io))
  {
    if names != [] {
      StaysClear(c, sources, dir, names[..|names| - 1], io);
    }
  }

  /** A run succeeds if nothing is in the way and no read or write fails; so there are such runs. */
  lemma {:induction false} UnhinderedRunSucceeds(
      c: Config, sources: map<string, File>, dir: Files, names: seq<string>, io: string -> IO)
    requires AreSources(names, sources) && IsClear(c, sources, dir)
    requires forall name :: IsInstalledSource(c, sources, name) ==>
               ReadsNeverFail(io(name)) && WritesSucceed(|sources[name].content|, io(name).writes, 0, 0)
    ensures Verdict(c, sources, dir, names, io).Success?
  {
    if names != [] {
      var init, name := names[..|names| - 1], names[|names| - 1];
      UnhinderedRunSucceeds(c, sources, dir, init, io);
      StaysClear(c, sources, dir, init, io);
      assert name in sources;
      var before := Installed(c, sources, dir, init, io);
      if IsInstalledSource(c, sources, name) {
        ReadsThatDeliverCompare(sources[name], Lookup(before, name), io(name));
      }
    }
  }

  lemma ReadsThatDeliverCompare(src: File, dst: Option<Node>, io: IO)
    requires ReadsNeverFail(io)
    ensures UpToDate(src, dst, io.sourceReads, io.targetReads).Success?
  {
    if dst.Some? && dst.value.Regular? && |src.content| == |dst.value.file.content| {
      NoFailureNoError(src.content, dst.value.file.content, io.sourceReads, io.targetReads, 0, 0);
    }
  }

  // ---------- What a successful run achieves ----------

  /** Steps touch their own names and temporaries only. */
  lemma {:induction false} OthersAreUntouched(
      c: Config, sources: map<string, File>, dir: Files, names: seq<string>, io: string -> IO, t: string)
    requires AreSources(names, sources)
    requires forall name :: name in names && name !in c.skipBinaries ==> t != name && t != name + TMP
    ensures Lookup(Installed(c, sources, dir, names, io), t) == Lookup(dir, t)
  {
    if names != [] {
      var init, last := names[..|names| - 1], names[|names| - 1];
      forall name | name in init && name !in c.skipBinaries ensures t != name && t != name + TMP {
        assert name in names;
      }
      OthersAreUntouched(c, sources, dir, init, io, t);
      assert last in names;
    }
  }

  /** A name later in the listing is not one whose temporary is an earlier name. */
  lemma LaterTemporaryIsNoEarlierName(earlier: string, later: string)
    requires Less(earlier, later)
    ensures earlier != later && earlier != later + TMP
  {
    LessTrichotomy(earlier, later);
    PrefixAtMost(later, later + TMP);
  }

  /** No later step of a sorted listing disturbs a name whose turn has come. */
  lemma {:induction false} NamesStayAsInstalled(
      c: Config, sources: map<string, File>, dir: Files, names: seq<string>, io: string -> IO, i: nat)
    requires i < |names| && AreSources(names, sources) && IsSorted(names)
    ensures Lookup(Installed(c, sources, dir, names, io), names[i]) ==
            Lookup(Installed(c, sources, dir, names[..i + 1], io), names[i])
  {
    var init, last := names[..|names| - 1], names[|names| - 1];
    if i < |names| - 1 {
      NamesStayAsInstalled(c, sources, dir, init, io, i);
      assert init[..i + 1] == names[..i + 1];
      LaterTemporaryIsNoEarlierName(names[i], last);
    } else {
      assert names[..i + 1] == names;
    }
  }

  /** After its turn a source that is not skipped is there, and is the source if it had to be placed. */
  lemma InstalledAtItsTurn(
      c: Config, sources: map<string, File>, dir: Files, names: seq<string>, io: string -> IO, i: nat)
    requires i < |names| && AreSources(names, sources) && IsSorted(names) && names[i] !in c.skipBinaries
    ensures var before := Installed(c, sources, dir, names[..i], io);
            var after := Installed(c, sources, dir, names, io);
            && FileExists(after, names[i])
            && (c.updateBinaries || !FileExists(before, names[i]) ==> after[names[i]] == Regular(sources[names[i]]))
            && (IsPassedOver(c, before, names[i]) ==> Lookup(after, names[i]) == Lookup(before, names[i]))
  {
    var name := names[i];
    var before := Installed(c, sources, dir, names[..i], io);
    NamesStayAsInstalled(c, sources, dir, names, io, i);
    InstalledSnoc(c, sources, dir, names[..i], io, name);
    assert names[..i + 1] == names[..i] + [name];
    hide Installed, IsSorted;
    PlacedAtItsTurn(c, before, name, sources[name], io(name));
  }

  lemma PlacedAtItsTurn(c: Config, before: Files, name: string, src: File, io: IO)
    requires name !in c.skipBinaries
    ensures var after := InstallOne(c, before, name, src, io);
            && FileExists(after, name)
            && (c.updateBinaries || !FileExists(before, name) ==> after[name] == Regular(src))
            && (IsPassedOver(c, before, name) ==> Lookup(after, name) == Lookup(before, name))
  {
    UpToDateIff(src, Lookup(before, name), io.sourceReads, io.targetReads);
  }

  /**
   * With updating on, every source that is not skipped is in place, contents and mode, even when one
   * source bears the name of another's temporary.
   */
  lemma EverySourceIsInstalled(
      c: Config, sources: map<string, File>, dir: Files, names: seq<string>, io: string -> IO, name: string)
    requires IsListing(names, sources) && IsInstalledSource(c, sources, name) && c.updateBinaries
    ensures Lookup(AfterRun(c, sources, dir, names, io), name) == Some(Regular(sources[name]))
  {
    var i :| 0 <= i < |names| && names[i] == name;
    InstalledAtItsTurn(c, sources, dir - {PROBE}, names, io, i);
  }

  // ---------- What the probe destroys ----------

  lemma {:induction false} ExistingFileIsKept(
      c: Config, sources: map<string, File>, dir: Files, names: seq<string>, io: string -> IO, t: string)
    requires AreSources(names, sources) && !IsTemporary(c, sources, t)
    requires !c.updateBinaries && FileExists(dir, t)
    ensures Lookup(Installed(c, sources, dir, names, io), t) == Lookup(dir, t)
  {
    if names != [] {
      ExistingFileIsKept(c, sources, dir, names[..|names| - 1], io, t);
      var last := names[|names| - 1];
      assert last in sources;
      assert IsInstalledSource(c, sources, last) ==> t != last + TMP;
    }
  }

  /** A name at which a run is to leave the entry: no source to be installed, or a file not to be updated. */
  ghost predicate IsToBeKept(c: Config, sources: map<string, File>, dir: Files, t: string) {
    && t in dir && !IsTemporary(c, sources, t)
    && (IsInstalledSource(c, sources, t) ==> !c.updateBinaries && FileExists(dir, t))
  }

  /**
   * Such an entry survives a successful run exactly when it does not bear the probe's name, or is
   * equal to the source that then takes its place.
   */
  lemma KeptIffNotTheProbe(
      c: Config, sources: map<string, File>, dir: Files, names: seq<string>, io: string -> IO, t: string)
    requires IsListing(names, sources) && IsToBeKept(c, sources, dir, t)
    ensures Lookup(AfterRun(c, sources, dir, names, io), t) == Lookup(dir, t) <==>
            t != PROBE || (IsInstalledSource(c, sources, t) && dir[t] == Regular(sources[t]))
  {
    var bare := dir - {PROBE};
    if !IsInstalledSource(c, sources, t) {
      forall name | name in names && name !in c.skipBinaries ensures t != name && t != name + TMP {
        assert IsInstalledSource(c, sources, name);
      }
      OthersAreUntouched(c, sources, bare, names, io, t);
    } else if t != PROBE {
      ExistingFileIsKept(c, sources, bare, names, io, t);
    } else {
      var i :| 0 <= i < |names| && names[i] == t;
      forall name | name in names[..i] && name !in c.skipBinaries ensures t != name && t != name + TMP {
        assert name in names && IsInstalledSource(c, sources, name);
        var j :| 0 <= j < i && names[j] == name;
        LessTrichotomy(names[j], names[i]);
      }
      OthersAreUntouched(c, sources, bare, names[..i], io, t);
      InstalledAtItsTurn(c, sources, bare, names, io, i);
    }
  }

  /** With updating off, an existing file of the probe's name is replaced by a source of that name. */
  lemma ProbeLetsAFileBeReplaced(old': File, new': File, io: string -> IO)
    ensures var c := Config([], false);
            AfterRun(c, map[PROBE := new'], map[PROBE := Regular(old')], [PROBE], io) == map[PROBE := Regular(new')]
  {
    var c, sources := Config([], false), map[PROBE := new'];
    var empty: Files := map[];
    assert map[PROBE := Regular(old')] - {PROBE} == empty;
    assert [PROBE][..0] == [];
    assert Installed(c, sources, empty, [PROBE], io) == InstallOne(c, empty, PROBE, new', io(PROBE));
    assert (empty - {PROBE + TMP})[PROBE := Regular(new')] == map[PROBE := Regular(new')];
  }

  // ---------- A second run ----------

  /** The reads of both files keep in step for every source. */
  ghost predicate ReadsKeepInStep(sources: map<string, File>, io: string -> IO) {
    forall name :: name in sources ==>
      Lockstep(io(name).sourceReads, io(name).targetReads, |sources[name].content|, 0, 0)
  }

  lemma FullReadsKeepAllInStep(sources: map<string, File>, io: string -> IO)
    requires forall name :: ReadsAreFull(io(name).sourceReads) && ReadsAreFull(io(name).targetReads)
    ensures ReadsKeepInStep(sources, io)
  {
    forall name | name in sources
      ensures Lockstep(io(name).sourceReads, io(name).targetReads, |sources[name].content|, 0, 0)
    {
      FullReadsKeepInStep(io(name).sourceReads, io(name).targetReads, |sources[name].content|, 0, 0);
    }
  }

  lemma DoneAfterRun(c: Config, sources: map<string, File>, dir: Files, names: seq<string>, io: string -> IO,
                     again: string -> IO, name: string)
    requires IsListing(names, sources) && name in sources
    requires c.updateBinaries ==> ReadsKeepInStep(sources, again)
    ensures IsDone(c, AfterRun(c, sources, dir, names, io), name, sources[name], again(name))
  {
    if name !in c.skipBinaries {
      var i :| 0 <= i < |names| && names[i] == name;
      InstalledAtItsTurn(c, sources, dir - {PROBE}, names, io, i);
      var once := AfterRun(c, sources, dir, names, io);
      UpToDateIff(sources[name], Lookup(once, name), again(name).sourceReads, again(name).targetReads);
    }
  }

  /** After a successful run nothing is left to do, if the probe's name is no source to be installed. */
  lemma RunSettles(c: Config, sources: map<string, File>, dir: Files, names: seq<string>, io: string -> IO,
      again: string -> IO)
    requires IsListing(names, sources) && !IsInstalledSource(c, sources, PROBE)
    requires c.updateBinaries ==> ReadsKeepInStep(sources, again)
    ensures IsSettled(c, sources, AfterRun(c, sources, dir, names, io), again)
  {
    var once := AfterRun(c, sources, dir, names, io);
    forall name | name in names && name !in c.skipBinaries ensures PROBE != name && PROBE != name + TMP {
      assert IsInstalledSource(c, sources, name);
      ProbeIsNoTemporary(name);
    }
    OthersAreUntouched(c, sources, dir - {PROBE}, names, io, PROBE);
    forall name | name in sources ensures IsDone(c, once, name, sources[name], again(name)) {
      DoneAfterRun(c, sources, dir, names, io, again, name);
    }
  }

  lemma ProbeIsNoTemporary(name: string)
    ensures PROBE != name + TMP
  {
    assert PROBE[|PROBE| - 1] == 'h' && (name + TMP)[|name + TMP| - 1] == 'p';
  }

  /**
   * What a second run is yet to put back once the names are done: the probe's file, or, when that was a
   * source, the temporary that placing it removed, and so on along sources named like temporaries.
   */
  function Missing(c: Config, names: seq<string>): string {
    if names == [] then PROBE
    else
      var missing, name := Missing(c, names[..|names| - 1]), names[|names| - 1];
      if name == missing && name !in c.skipBinaries then name + TMP else missing
  }

  lemma {:induction false} MissingIsMissing(
      c: Config, sources: map<string, File>, dir: Files, names: seq<string>, io: string -> IO)
    requires AreSources(names, sources) && PROBE !in dir
    ensures Missing(c, names) !in Installed(c, sources, dir, names, io)
  {
    if names != [] {
      var init, name := names[..|names| - 1], names[|names| - 1];
      MissingIsMissing(c, sources, dir, init, io);
      var before := Installed(c, sources, dir, init, io);
      UpToDateIff(sources[name], Lookup(before, name), io(name).sourceReads, io(name).targetReads);
      assert |name + TMP| != |name|;
    }
  }

  lemma MissingSnoc(c: Config, names: seq<string>, name: string)
    ensures var missing := Missing(c, names);
            Missing(c, names + [name]) == if name == missing && name !in c.skipBinaries then name + TMP else missing
  {
    assert (names + [name])[..|names|] == names;
  }

  lemma PutBackOne(
      c: Config, sources: map<string, File>, dir: Files, names: seq<string>, io: string -> IO,
          again: string -> IO, i: nat)
    requires IsListing(names, sources) && i < |names|
    requires c.updateBinaries ==> ReadsKeepInStep(sources, again)
    ensures var once := AfterRun(c, sources, dir, names, io);
            var missing, name := Missing(c, names[..i]), names[i];
            InstallOne(c, once - {missing}, name, sources[name], again(name)) ==
            once - {if name == missing && name !in c.skipBinaries then name + TMP else missing}
  {
    var once := AfterRun(c, sources, dir, names, io);
    var missing, name := Missing(c, names[..i]), names[i];
    if name !in c.skipBinaries {
      if name == missing {
        MissingIsMissing(c, sources, dir - {PROBE}, names[..i], io);
        InstalledAtItsTurn(c, sources, dir - {PROBE}, names, io, i);
        UpToDateIff(sources[name], None, again(name).sourceReads, again(name).targetReads);
        assert name != name + TMP by { assert |name| != |name + TMP|; }
        assert (once - {name} - {name + TMP})[name := Regular(sources[name])] == once - {name + TMP};
      } else {
        DoneAfterRun(c, sources, dir, names, io, again, name);
        assert Lookup(once - {missing}, name) == Lookup(once, name);
      }
    }
  }

  /** A second run, when the names are done, lacks no more than what is missing. */
  ghost predicate IsPutBack(c: Config, sources: map<string, File>, once: Files, done: seq<string>,
      again: string -> IO) {
    AreSources(done, sources) &&
    Installed(c, sources, once - {PROBE}, done, again) == once - {Missing(c, done)}
  }

  lemma PutBackNext(
      c: Config, sources: map<string, File>, dir: Files, names: seq<string>, io: string -> IO,
          again: string -> IO, i: nat)
    requires IsListing(names, sources) && i < |names|
    requires c.updateBinaries ==> ReadsKeepInStep(sources, again)
    requires IsPutBack(c, sources, AfterRun(c, sources, dir, names, io), names[..i], again)
    ensures IsPutBack(c, sources, AfterRun(c, sources, dir, names, io), names[..i] + [names[i]], again)
  {
    var once := AfterRun(c, sources, dir, names, io);
    PutBackOne(c, sources, dir, names, io, again, i);
    InstalledSnoc(c, sources, once - {PROBE}, names[..i], again, names[i]);
    MissingSnoc(c, names[..i], names[i]);
    hide AfterRun, Installed, Missing, InstallOne, ReadsKeepInStep, IsListing;
  }

  lemma {:induction false} SecondRunPutsBack(
      c: Config, sources: map<string, File>, dir: Files, names: seq<string>, io: string -> IO,
          again: string -> IO, n: nat)
    requires IsListing(names, sources) && n <= |names|
    requires c.updateBinaries ==> ReadsKeepInStep(sources, again)
    ensures IsPutBack(c, sources, AfterRun(c, sources, dir, names, io), names[..n], again)
  {
    if n > 0 {
      hide *;
      SecondRunPutsBack(c, sources, dir, names, io, again, n - 1);
      PutBackNext(c, sources, dir, names, io, again, n - 1);
      assert names[..n] == names[..n - 1] + [names[n - 1]];
    }
  }

  /** In any case the directory after a second successful run is that after the first. */
  lemma SecondRunEndsTheSame(
      c: Config, sources: map<string, File>, dir: Files, names: seq<string>, io: string -> IO, again: string -> IO)
    requires IsListing(names, sources)
    requires c.updateBinaries ==> ReadsKeepInStep(sources, again)
    ensures var once := AfterRun(c, sources, dir, names, io);
            AfterRun(c, sources, once, names, again) == once
  {
    var once := AfterRun(c, sources, dir, names, io);
    SecondRunPutsBack(c, sources, dir, names, io, again, |names|);
    assert names[..|names|] == names;
    MissingIsMissing(c, sources, dir - {PROBE}, names, io);
    assert once - {Missing(c, names)} == once;
  }

  /**
   * Two runs, one after the other.  The second succeeds and leaves nothing in the trace but the probe's
   * file coming and going, if its reads keep in step, as full reads do, or if updating is off.
   */
  method InstallTwice(c: Config, sources: map<string, File>, names: seq<string>, target: TargetDirectory,
                      probe: Probe, io: string -> IO, again: string -> IO)
    returns (first: Result<(), Error>, second: Result<(), Error>, ghost once: Files, ghost trace: seq<Files>)
    requires IsListing(names, sources) && !IsInstalledSource(c, sources, PROBE)
    requires c.updateBinaries ==> ReadsKeepInStep(sources, again)
    modifies target
    ensures first == RunVerdict(c, sources, old(target.files), names, probe, io)
    ensures first.Success? ==>
      && once == AfterRun(c, sources, old(target.files), names, io)
      && PROBE !in once && second.Success? && target.files == once
      && target.trace == trace + [Probed(once), once]
  {
    first := Install.Install(c, sources, names, target, probe, io);
    once, trace := target.files, target.trace;
    RunSettles(c, sources, old(target.files), names, io, again);
    second := Install.Install(c, sources, names, target, Works, again);
  }
}
