/**
 * The config synchroniser: the watcher of `pkg/filewatcher/watcher.go` with the copying callback of
 * `cmd/dynamic-credential-provider/sync_config.go`, as a machine whose steps interleave with
 * writers of the source file.
 */
module FileWatcher {
  import opened Wrappers
  import opened Bytes
  import opened Strings

  // ---------- Events ----------

  datatype Op = Create | Write | Remove | Rename | Chmod

  datatype Event = Event(name: string, ops: set<Op>)

  function TrimSlashes(path: string): string {
    if path != "" && path[|path| - 1] == '/' then TrimSlashes(path[..|path| - 1]) else path
  }

  /** `filepath.Base`: the last element of a path. */
  function Base(path: string): string {
    var trimmed := TrimSlashes(path);
    if path == "" then "."
    else if trimmed == "" then "/"
    else
      var i := LastIndexOf(trimmed, '/');
      if i == |trimmed| then trimmed else trimmed[i + 1..]
  }

  /** The path ends in this element, and perhaps in slashes. */
  ghost predicate IsLastElement(last: string, path: string) {
    exists front, slashes ::
      && path == front + last + slashes
      && (front == "" || front[|front| - 1] == '/') && forall c :: c in slashes ==> c == '/'
  }

  lemma {:induction false} TrimmedIs(path: string, slashes: string)
    requires path == "" || path[|path| - 1] != '/'
    requires forall c :: c in slashes ==> c == '/'
    ensures TrimSlashes(path + slashes) == path
  {
    if slashes == "" {
      assert path + slashes == path;
    } else {
      var init := slashes[..|slashes| - 1];
      forall c | c in init ensures c == '/' {
        var i :| 0 <= i < |init| && init[i] == c;
        assert slashes[i] in slashes;
      }
      TrimmedIs(path, init);
      assert slashes[|slashes| - 1] in slashes;
      assert (path + slashes)[..|path + slashes| - 1] == path + init;
    }
  }

  lemma {:induction false} TrimmedLeavesSlashes(path: string)
    ensures exists slashes :: path == TrimSlashes(path) + slashes && forall c :: c in slashes ==> c == '/'
    ensures var trimmed := TrimSlashes(path); trimmed == "" || trimmed[|trimmed| - 1] != '/'
  {
    if path != "" && path[|path| - 1] == '/' {
      TrimmedLeavesSlashes(path[..|path| - 1]);
      var trimmed := TrimSlashes(path);
      var slashes :| path[..|path| - 1] == trimmed + slashes && forall c :: c in slashes ==> c == '/';
      assert path == trimmed + (slashes + "/");
    } else {
      assert path == TrimSlashes(path) + "";
    }
  }

  /** `Base` gives the last element of any path that has one. */
  lemma BaseIff(path: string, last: string)
    requires last != "" && last != "." && '/' !in last
    ensures Base(path) == last <==> IsLastElement(last, path)
  {
    if front, slashes :| path == front + last + slashes && (front == "" || front[|front| - 1] == '/') &&
                         forall c :: c in slashes ==> c == '/' {
      BaseOf(front, last, slashes);
    }
    if Base(path) == last {
      BaseIsLastElement(path);
    }
  }

  lemma BaseOf(front: string, last: string, slashes: string)
    requires last != "" && '/' !in last && (front == "" || front[|front| - 1] == '/')
    requires forall c :: c in slashes ==> c == '/'
    ensures Base(front + last + slashes) == last
  {
    var trimmed := front + last;
    LastElementIs(front, last);
    TrimmedIs(trimmed, slashes);
    assert |trimmed + slashes| > 0;
  }

  lemma BaseIsLastElement(path: string)
    requires '/' !in Base(path) && Base(path) != "."
    ensures IsLastElement(Base(path), path)
  {
    TrimmedLeavesSlashes(path);
    var trimmed := TrimSlashes(path);
    var slashes :| path == trimmed + slashes && forall c :: c in slashes ==> c == '/';
    var i := LastIndexOf(trimmed, '/');
    var front := if i == |trimmed| then "" else trimmed[..i + 1];
    assert trimmed == front + Base(path);
    assert path == front + Base(path) + slashes;
  }

  lemma LastElementIs(front: string, last: string)
    requires last != "" && '/' !in last && (front == "" || front[|front| - 1] == '/')
    ensures var path := front + last; var i := LastIndexOf(path, '/');
            path[|path| - 1] != '/' && last == if i == |path| then path else path[i + 1..]
  {
    var path := front + last;
    assert path[|path| - 1] == last[|last| - 1];
    assert forall k :: |front| <= k < |path| ==> path[k] == last[k - |front|];
    if front == "" {
      assert path == last;
    } else {
      LastIndexOfIs(path, '/', |front| - 1);
    }
  }

  predicate IsWrite(event: Event) { Write in event.ops }

  predicate IsCreate(event: Event) { Create in event.ops }

  predicate IsRemove(event: Event) { Remove in event.ops }

  /** The event runs the callback. */
  predicate Relevant(watched: string, event: Event) {
    && (IsWrite(event) || IsCreate(event) || IsRemove(event))
    && (event.name == watched || Base(event.name) == "..data")
  }

  /** `handleEvent` up to the callback: whether the callback is to run. */
  method HandleEvent(watched: string, event: Event) returns (run: bool)
    ensures run <==>
      && (Write in event.ops || Create in event.ops || Remove in event.ops)
      && (event.name == watched || IsLastElement("..data", event.name))
    ensures run <==> Relevant(watched, event)
  {
    BaseIff(event.name, "..data");
    if !IsWrite(event) && !IsRemove(event) && !IsCreate(event) {
      return false;
    }
    if event.name != watched && Base(event.name) != "..data" {
      return false;
    }
    return true;
  }

  /**
   * How a writer's change of the file is reported: by an event on the file itself, or on the link
   * `..data` next to it, which is swapped when the file is part of a mounted volume.
   */
  ghost predicate ReportsChange(watched: string, event: Event) {
    && (Write in event.ops || Create in event.ops || Remove in event.ops)
    && (event.name == watched ||
        exists dir, file :: watched == dir + "/" + file && '/' !in file && event.name == dir + "/..data")
  }

  lemma LinkNextTo(dir: string)
    ensures Base(dir + "/..data") == "..data"
  {
    hide Base;
    BaseOf(dir + "/", "..data", "");
    assert dir + "/..data" == (dir + "/") + "..data" + "";
  }

  lemma ReportIsRelevant(watched: string, event: Event)
    requires ReportsChange(watched, event)
    ensures Relevant(watched, event)
  {
    if event.name != watched {
      var dir, file :| watched == dir + "/" + file && '/' !in file && event.name == dir + "/..data";
      LinkNextTo(dir);
      hide Base;
    }
  }

  // ---------- The machine ----------

  /**
   * Where `Start`, and after it `Watch`, is.  A copy has opened the source when it was at version
   * `seen` and has `left` more bytes to deliver; `first` is the copy that `Start` makes itself.
   */
  datatype Phase =
    | Created
    | Watching
    | Opening(first: bool)
    | Copying(first: bool, seen: nat, left: nat)
    | Idle
    | Stopped

  /** `version` counts the changes of the source; `events` are those not yet received. */
  datatype State = State(
    phase: Phase,
    source: Option<Content>,
    version: nat,
    destination: Option<Content>,
    events: seq<Event>
  )

  predicate IsInitial(s: State) {
    s.phase == Created && s.events == []
  }

  /** Events are queued from `watcher.Add` on. */
  predicate IsWatched(s: State) {
    !s.phase.Created? && !s.phase.Stopped?
  }

  function Queue(s: State, event: Event): seq<Event> {
    if IsWatched(s) then s.events + [event] else s.events
  }

  /** The phase of a copy, or its failure: the first one ends `Start`. */
  function Abandoned(first: bool): Phase {
    if first then Stopped else Idle
  }

  /**
   * A writer changes the source.  New content is reported; the file's going away raises some event.
   * What an open copy still delivers is no longer determined.
   */
  ghost predicate SourceChanges(watched: string, s: State, s': State, event: Event) {
    && (s'.source.Some? ==> ReportsChange(watched, event))
    && s'.version == s.version + 1 && s'.destination == s.destination && s'.events == Queue(s, event)
    && (if s.phase.Copying?
        then s'.phase.Copying? && s'.phase.first == s.phase.first && s'.phase.seen == s.phase.seen
        else s'.phase == s.phase)
  }

  predicate OtherEvent(s: State, s': State, event: Event) {
    s' == s.(events := Queue(s, event))
  }

  predicate AddWatch(s: State, s': State) {
    s.phase.Created? && s' == s.(phase := Watching)
  }

  predicate BeginFirst(s: State, s': State) {
    s.phase.Watching? && s' == s.(phase := Opening(true))
  }

  predicate Receive(watched: string, s: State, s': State) {
    && s.phase.Idle? && s.events != []
    && s' == s.(events := s.events[1..], phase := if Relevant(watched, s.events[0]) then Opening(false) else Idle)
  }

  /** The callback opens the source and truncates the destination, or fails as there is no source. */
  predicate Open(s: State, s': State) {
    && s.phase.Opening?
    && s' == (if s.source.Some?
              then s.(phase := Copying(s.phase.first, s.version, |s.source.value|), destination := Some([]))
              else s.(phase := Abandoned(s.phase.first)))
  }

  /** Some bytes are copied; they are those of the source unless it has changed since. */
  predicate CopyBytes(s: State, s': State, bytes: Content) {
    && s.phase.Copying? && s.destination.Some? && 0 < |bytes| <= s.phase.left
    && s' == s.(phase := s.phase.(left := s.phase.left - |bytes|), destination := Some(s.destination.value + bytes))
    && (s.phase.seen == s.version && s.source.Some? ==>
          var at := |s.destination.value|;
          at + |bytes| <= |s.source.value| && bytes == s.source.value[at..at + |bytes|])
  }

  predicate FinishCopy(s: State, s': State) {
    s.phase.Copying? && s.phase.left == 0 && s' == s.(phase := Idle)
  }

  /** A copy may break off once the source it opened has changed. */
  predicate BreakOff(s: State, s': State) {
    s.phase.Copying? && s.phase.seen != s.version && s' == s.(phase := Abandoned(s.phase.first))
  }

  predicate Cancel(s: State, s': State) {
    s' == s.(phase := Stopped)
  }

  /** A step of the watcher itself. */
  ghost predicate Works(watched: string, s: State, s': State) {
    || AddWatch(s, s') || BeginFirst(s, s') || Receive(watched, s, s') || Open(s, s')
    || (exists bytes :: CopyBytes(s, s', bytes)) || FinishCopy(s, s') || BreakOff(s, s')
  }

  ghost predicate Next(watched: string, s: State, s': State) {
    || (exists event :: SourceChanges(watched, s, s', event))
    || (exists event :: OtherEvent(s, s', event))
    || Works(watched, s, s')
    || Cancel(s, s')
  }

  ghost predicate IsRun(watched: string, run: seq<State>) {
    && run != [] && IsInitial(run[0])
    && forall i :: 0 <= i < |run| - 1 ==> Next(watched, run[i], run[i + 1])
  }

  // ---------- The first copy ----------

  /** What comes of a copy: `Start` gives up with its own, and only with it. */
  lemma OnlyTheFirstCopyStops(watched: string, s: State, s': State)
    requires Works(watched, s, s')
    ensures s.phase == Opening(true) && s.source.None? ==> s'.phase == Stopped
    ensures s.phase == Opening(false) && s.source.None? ==> s'.phase == Idle
    ensures s.phase.Copying? && s.phase.first ==>
              s'.phase == Stopped || (s'.phase == Idle && s.phase.left == 0) || (s'.phase.Copying? && s'.phase.first)
    ensures s.phase.Copying? && !s.phase.first ==> s'.phase == Idle || (s'.phase.Copying? && !s'.phase.first)
    ensures s'.phase == Stopped ==> (s.phase.Opening? || s.phase.Copying?) && s.phase.first
  {
    hide Relevant;
  }

  /** An event is received while the watcher is idle, and it runs the callback if it concerns the file. */
  lemma EventRunsTheCallback(watched: string, s: State, s': State)
    requires Works(watched, s, s') && s.phase.Idle?
    ensures s.events != [] && s'.events == s.events[1..]
    ensures var event := s.events[0];
            s'.phase == if && (Write in event.ops || Create in event.ops || Remove in event.ops)
                           && (event.name == watched || IsLastElement("..data", event.name))
                        then Opening(false) else Idle
  {
    BaseIff(s.events[0].name, "..data");
  }

  /** The destination changes only when there is a source to open or an open one to copy. */
  lemma OnlyCopiesWrite(watched: string, s: State, s': State)
    requires Works(watched, s, s') && !(s.phase.Opening? && s.source.Some?) && !s.phase.Copying?
    ensures s'.destination == s.destination
  {
  }

  /** From `watcher.Add` on, whoever gives the source new content leaves an event behind that is relevant. */
  lemma ChangeIsPending(watched: string, s: State, s': State, event: Event)
    requires SourceChanges(watched, s, s', event) && s'.source.Some?
    requires s.phase != Created && s.phase != Stopped
    ensures Pending(watched, s')
  {
    ReportIsRelevant(watched, event);
    QueueKeepsPending(watched, s, s', event);
  }

  predicate ServesEvents(s: State) {
    s.phase.Idle? || (s.phase.Opening? && !s.phase.first) || (s.phase.Copying? && !s.phase.first)
  }

  predicate HasCopiedFirst(s: State) {
    s.phase.Copying? && s.phase.first && s.phase.left == 0
  }

  /** In no run are events served unless the first copy has come to its end before. */
  lemma {:induction false} ServesOnlyAfterFirstCopy(watched: string, run: seq<State>, i: nat)
    requires IsRun(watched, run) && i < |run| && ServesEvents(run[i])
    ensures exists j :: 0 <= j < i && HasCopiedFirst(run[j])
  {
    assert i > 0;
    assert Next(watched, run[i - 1], run[i]);
    hide Relevant, ReportsChange;
    if ServesEvents(run[i - 1]) {
      ServesOnlyAfterFirstCopy(watched, run, i - 1);
    } else {
      assert HasCopiedFirst(run[i - 1]);
    }
  }

  // ---------- No update is lost ----------

  predicate InSync(s: State) {
    s.destination == s.source
  }

  ghost predicate Pending(watched: string, s: State) {
    exists event :: event in s.events && Relevant(watched, event)
  }

  /** A running copy has so far written a prefix of what is now the source, and the rest is to come. */
  predicate CopiesCurrent(s: State) {
    && s.phase.Copying? && s.phase.seen == s.version && s.source.Some? && s.destination.Some?
    && s.destination.value <= s.source.value
    && s.phase.left == |s.source.value| - |s.destination.value|
  }

  ghost predicate Invariant(watched: string, s: State) {
    match s.phase
    case Created => s.events == []
    case Watching => true
    case Opening(_) => true
    case Copying(_, seen, _) =>
      && s.destination.Some?
      && (CopiesCurrent(s) || (seen < s.version && (s.source.None? || Pending(watched, s))))
    case Idle => s.source.None? || InSync(s) || Pending(watched, s)
    case Stopped => true
  }

  lemma QueueKeepsPending(watched: string, s: State, s': State, event: Event)
    requires s'.events == Queue(s, event) && IsWatched(s)
    ensures Pending(watched, s) || Relevant(watched, event) ==> Pending(watched, s')
  {
    assert event in s'.events;
    assert forall e :: e in s.events ==> e in s'.events;
  }

  lemma CopyBytesKeepsInvariant(watched: string, s: State, s': State, bytes: Content)
    requires Invariant(watched, s) && CopyBytes(s, s', bytes)
    ensures Invariant(watched, s')
  {
    if CopiesCurrent(s) {
      var source, at := s.source.value, |s.destination.value|;
      assert s.destination.value == source[..at];
      assert source[..at] + source[at..at + |bytes|] == source[..at + |bytes|];
      assert CopiesCurrent(s');
    }
  }

  lemma WorkKeepsInvariant(watched: string, s: State, s': State)
    requires Invariant(watched, s) && Works(watched, s, s')
    ensures Invariant(watched, s')
  {
    hide Relevant;
    if Receive(watched, s, s') {
      assert forall e :: e in s.events <==> e == s.events[0] || e in s'.events;
    } else if bytes :| CopyBytes(s, s', bytes) {
      CopyBytesKeepsInvariant(watched, s, s', bytes);
    } else if FinishCopy(s, s') && CopiesCurrent(s) {
      assert s.destination.value == s.source.value;
    }
  }

  lemma InvariantKept(watched: string, s: State, s': State)
    requires Invariant(watched, s) && Next(watched, s, s')
    ensures Invariant(watched, s')
  {
    if Works(watched, s, s') {
      WorkKeepsInvariant(watched, s, s');
    } else if event :| SourceChanges(watched, s, s', event) {
      if s'.source.Some? {
        ReportIsRelevant(watched, event);
      }
      if IsWatched(s) {
        QueueKeepsPending(watched, s, s', event);
      }
    } else if event :| OtherEvent(s, s', event) {
      if IsWatched(s) {
        QueueKeepsPending(watched, s, s', event);
      }
    }
  }

  lemma {:induction false} InvariantAlways(watched: string, run: seq<State>, i: nat)
    requires IsRun(watched, run) && i < |run|
    ensures Invariant(watched, run[i])
  {
    if i > 0 {
      InvariantAlways(watched, run, i - 1);
      InvariantKept(watched, run[i - 1], run[i]);
    }
  }

  /** `Start` has got as far as its own copy, and nothing has stopped since. */
  predicate HasBegunToCopy(s: State) {
    s.phase.Opening? || s.phase.Copying? || s.phase.Idle?
  }

  /**
   * In every state of every run, from the beginning of the first copy until the watcher stops: there
   * is no source, or the destination is the source, or an event is still to come, or the source is
   * about to be opened, or a copy of the present source is under way.
   */
  lemma NoLostUpdate(watched: string, run: seq<State>, i: nat)
    requires IsRun(watched, run) && i < |run| && HasBegunToCopy(run[i])
    ensures run[i].source.None? || InSync(run[i]) || Pending(watched, run[i]) || run[i].phase.Opening? ||
        CopiesCurrent(run[i])
    ensures run[i].phase.Idle? && run[i].events == [] ==> run[i].source.None? || InSync(run[i])
  {
    InvariantAlways(watched, run, i);
  }

  // ---------- Left alone, the watcher comes to rest in sync ----------

  function SourceLength(s: State): nat {
    if s.source.Some? then |s.source.value| else 0
  }

  /** How many steps the watcher can take at most while nobody else does anything. */
  function Cost(s: State): nat {
    EventsCost(s.events, SourceLength(s)) +
    match s.phase
    case Created => SourceLength(s) + 4
    case Watching => SourceLength(s) + 3
    case Opening(_) => SourceLength(s) + 2
    case Copying(_, _, left) => left + 1
    case Idle => 0
    case Stopped => 0
  }

  function EventsCost(events: seq<Event>, length: nat): nat {
    if events == [] then 0 else length + 3 + EventsCost(events[1..], length)
  }

  lemma WorkLowersCost(watched: string, s: State, s': State)
    requires Works(watched, s, s')
    ensures Cost(s') < Cost(s)
  {
    hide Relevant;
  }

  ghost predicate IsStuck(watched: string, s: State) {
    forall s' :: !Works(watched, s, s')
  }

  /** The watcher can always go on unless it has stopped or waits with no event to receive. */
  lemma StuckIsDrained(watched: string, s: State)
    requires Invariant(watched, s) && !s.phase.Stopped?
    requires IsStuck(watched, s)
    ensures s.phase.Idle? && s.events == []
  {
    match s.phase {
      case Created => assert Works(watched, s, s.(phase := Watching));
      case Watching => assert Works(watched, s, s.(phase := Opening(true)));
      case Opening(first) =>
        var s' := if s.source.Some?
                  then s.(phase := Copying(first, s.version, |s.source.value|), destination := Some([]))
                  else s.(phase := Abandoned(first));
        assert Works(watched, s, s');
      case Copying(first, seen, left) =>
        if left == 0 {
          assert Works(watched, s, s.(phase := Idle));
        } else if seen != s.version {
          assert Works(watched, s, s.(phase := Abandoned(first)));
        } else {
          var at := |s.destination.value|;
          var bytes := s.source.value[at..at + 1];
          var s' := s.(phase := Copying(first, seen, left - 1), destination := Some(s.destination.value + bytes));
          assert CopyBytes(s, s', bytes);
          assert Works(watched, s, s');
        }
      case Idle =>
        if s.events != [] {
          var phase := if Relevant(watched, s.events[0]) then Opening(false) else Idle;
          assert Works(watched, s, s.(events := s.events[1..], phase := phase));
        }
      case Stopped =>
    }
  }

  /** The watcher takes its steps while the source and everything else stay as they are. */
  ghost predicate IsQuiet(watched: string, run: seq<State>) {
    run != [] && forall i :: 0 <= i < |run| - 1 ==> Works(watched, run[i], run[i + 1])
  }

  lemma {:induction false} QuietRunIsBounded(watched: string, run: seq<State>)
    requires IsQuiet(watched, run)
    ensures |run| <= Cost(run[0]) + 1
    ensures run[|run| - 1].source == run[0].source
  {
    if |run| > 1 {
      WorkLowersCost(watched, run[0], run[1]);
      QuietRunIsBounded(watched, run[1..]);
    }
  }

  lemma {:induction false} QuietRunKeepsInvariant(watched: string, run: seq<State>)
    requires IsQuiet(watched, run) && Invariant(watched, run[0])
    ensures Invariant(watched, run[|run| - 1])
  {
    if |run| > 1 {
      WorkKeepsInvariant(watched, run[0], run[1]);
      QuietRunKeepsInvariant(watched, run[1..]);
    }
  }

  /** `Start` has nothing to make it give up: its own copy is past, or has a source that is unchanged. */
  predicate IsSteady(s: State) {
    match s.phase
    case Created => s.source.Some?
    case Watching => s.source.Some?
    case Opening(first) => first ==> s.source.Some?
    case Copying(first, seen, _) => first ==> seen == s.version
    case Idle => true
    case Stopped => false
  }

  lemma {:induction false} QuietRunStaysSteady(watched: string, run: seq<State>)
    requires IsQuiet(watched, run) && IsSteady(run[0])
    ensures IsSteady(run[|run| - 1])
  {
    if |run| > 1 {
      assert Works(watched, run[0], run[1]);
      QuietRunStaysSteady(watched, run[1..]);
    }
  }

  /**
   * After any run, once the writers pause, the watcher takes at most `Cost` steps; and when it can
   * take no more, it has stopped, or there is no source, or the destination is the source.  It does
   * not stop from a steady state.
   */
  lemma ComesToRestInSync(watched: string, run: seq<State>, i: nat, quiet: seq<State>)
    requires IsRun(watched, run) && i < |run|
    requires IsQuiet(watched, quiet) && quiet[0] == run[i]
    ensures |quiet| <= Cost(run[i]) + 1
    ensures var last := quiet[|quiet| - 1];
            && (IsStuck(watched, last) ==>
                last.phase.Stopped? || run[i].source.None? || last.destination == run[i].source)
            && (IsSteady(run[i]) ==> !last.phase.Stopped?)
  {
    InvariantAlways(watched, run, i);
    QuietRunIsBounded(watched, quiet);
    QuietRunKeepsInvariant(watched, quiet);
    var last := quiet[|quiet| - 1];
    if IsSteady(run[i]) {
      QuietRunStaysSteady(watched, quiet);
    }
    if IsStuck(watched, last) && !last.phase.Stopped? {
      StuckIsDrained(watched, last);
    }
  }
}
