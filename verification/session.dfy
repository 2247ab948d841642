/** The lock lifecycle of one run of the Python application
    (`app/app_main.py`): the startup check, the zombie dialog, and the two
    exit paths (window close and the process-exit handler) that release the
    lock when the session is in edit mode.

    `Startup`, `Step` and `Release` follow the code as written, where the
    session's mode starts out as edit (`app/ui_state.py`). The `Safe*`
    members are the corrected lifecycle, in which the mode is undecided until
    the lock verdict chooses it. */
module Session {
  import opened Wrappers
  import PyLock

  datatype Mode = EditMode | ReadOnlyMode

  /** What the window shows after startup; `Failed` when the lock check
      raised and `main` stopped there, before any window handler was set. */
  datatype Screen = Listing | ZombieDialog | SchemaError | Failed

  datatype AppState = AppState(mode: Mode, lockedBy: Option<string>, screen: Screen)

  /** A freshly constructed `AppState`: edit mode, nobody named. */
  const Initial: AppState := AppState(EditMode, None, Listing)

  /** The session state together with the lock file. */
  datatype World = World(state: AppState, file: PyLock.LockFile)

  /** User actions and exit paths after startup. */
  datatype Event =
    | OpenReadOnly            // "open read-only" in the zombie dialog
    | ForceUnlock(now: int)   // "force unlock and edit" in the zombie dialog
    | Window(data: string)    // a window event; only "close" matters
    | Exit                    // atexit / SIGINT / SIGTERM

  /** The verdict of a lock check, when it did not raise. */
  function Verdict(c: PyLock.Startup): (v: Option<PyLock.LockResult>)
    ensures v.Some? <==> c.result.Ok?
    ensures v.Some? ==> c.result == Ok(v.value)
  {
    if c.result.Ok? then Some(c.result.value) else None
  }

  /** `main` up to its first `page.update()`: run the lock check, then the
      schema set-up. A check that raises ends `main` with the state already
      registered in edit mode; a failed set-up returns before the mode is
      chosen; a zombie verdict opens the dialog and leaves the mode alone. */
  function Startup(file: PyLock.LockFile, me: string, now: int, schemaOk: bool): (w: World)
    ensures w.file == PyLock.CheckLockOnStartup(file, me, now).file
    ensures var v := Verdict(PyLock.CheckLockOnStartup(file, me, now));
            && (w.state.lockedBy == if v.Some? then PyLock.LockedBy(v.value) else None)
            && (w.state.screen == Failed <==> v.None?)
            && (w.state.screen == SchemaError <==> v.Some? && !schemaOk)
            && (w.state.screen == ZombieDialog <==> v.Some? && schemaOk && v.value.Zombie?)
            && (w.state.mode == ReadOnlyMode <==> v.Some? && schemaOk && v.value.ReadOnly?)
  {
    var c := PyLock.CheckLockOnStartup(file, me, now);
    match Verdict(c)
    case None => World(Initial.(screen := Failed), c.file)
    case Some(v) =>
      var s := Initial.(lockedBy := PyLock.LockedBy(v));
      if !schemaOk then World(s.(screen := SchemaError), c.file)
      else if v.Zombie? then World(s.(screen := ZombieDialog), c.file)
      else World(s.(mode := if v.Edit? then EditMode else ReadOnlyMode), c.file)
  }

  /** The release both exit paths perform: unconditional deletion when the
      session believes it edits. */
  function Release(mode: Mode, file: PyLock.LockFile): (r: PyLock.LockFile)
    ensures mode == EditMode ==> r.None?
    ensures mode == ReadOnlyMode ==> r == file
  {
    if mode == EditMode then PyLock.ReleaseLock(file) else file
  }

  /** `_cleanup_handler`: nothing before `main` has created a state. */
  function CleanupHandler(state: Option<AppState>, file: PyLock.LockFile): (r: PyLock.LockFile)
    ensures state.None? ==> r == file
    ensures state.Some? ==> r == Release(state.value.mode, file)
  {
    match state
    case None => file
    case Some(s) => Release(s.mode, file)
  }

  /** One event; the dialog buttons exist only while the dialog is shown,
      and window events reach no handler after a failed start. */
  function Step(w: World, me: string, e: Event): (r: World)
    ensures e.Window? && (e.data != "close" || w.state.screen == Failed) ==> r == w
    ensures w.state.screen != ZombieDialog && (e.OpenReadOnly? || e.ForceUnlock?) ==> r == w
    ensures e.ForceUnlock? && w.state.screen == ZombieDialog
            ==> r.state.mode == EditMode && r.state.lockedBy.None?
                && PyLock.ReadLock(r.file) == Ok(Some(PyLock.Object(PyLock.LockData(Some(me), PyLock.Naive(e.now)))))
    ensures e.OpenReadOnly? && w.state.screen == ZombieDialog
            ==> r.state.mode == ReadOnlyMode && r.file == w.file
    ensures e.Exit? || (e == Window("close") && w.state.screen != Failed) ==> r.state == w.state && r.file == Release(w.state.mode, w.file)
  {
    match e
    case OpenReadOnly =>
      if w.state.screen == ZombieDialog then w.(state := w.state.(mode := ReadOnlyMode, screen := Listing))
      else w
    case ForceUnlock(now) =>
      if w.state.screen == ZombieDialog then
        World(w.state.(mode := EditMode, lockedBy := None, screen := Listing), PyLock.ForceAcquireLock(w.file, me, now))
      else w
    case Window(data) =>
      if data == "close" && w.state.screen != Failed then w.(file := Release(w.state.mode, w.file)) else w
    case Exit =>
      w.(file := CleanupHandler(Some(w.state), w.file))
  }

  /** While the zombie dialog is still open, closing the window deletes the
      other user's lock even though this session never acquired it. */
  lemma ZombieDialogCloseDeletesForeignLock()
    ensures var start := Startup(PyLock.WriteLock("alice", 0), "bob", 2 * PyLock.ZombieAfter, true);
            && start.file == PyLock.WriteLock("alice", 0)
            && start.state.screen == ZombieDialog
            && Step(start, "bob", Window("close")).file.None?
  {
  }

  /** After the schema set-up fails, process exit deletes a live lock that
      another user holds: the verdict was readonly but the mode stayed edit. */
  lemma SchemaFailureExitDeletesLiveForeignLock()
    ensures var start := Startup(PyLock.WriteLock("alice", 0), "bob", 60, false);
            && PyLock.CheckLockOnStartup(PyLock.WriteLock("alice", 0), "bob", 60).result == Ok(PyLock.ReadOnly("alice"))
            && start.file == PyLock.WriteLock("alice", 0)
            && Step(start, "bob", Exit).file.None?
  {
  }

  /** A lock record whose `locked_at` carries a UTC offset makes the check
      raise; the process-exit handler then finds the state still in edit
      mode and deletes the other user's lock. */
  lemma CrashExitDeletesForeignLock(t: int, now: int)
    ensures var f := Some(Ok(PyLock.Object(PyLock.LockData(Some("alice"), PyLock.Aware(t)))));
            var start := Startup(f, "bob", now, true);
            && start.file == f
            && start.state.screen == Failed && start.state.mode == EditMode
            && Step(start, "bob", Exit).file.None?
  {
  }

  /** A lock file that is not valid UTF-8 makes the check raise in
      `read_lock`; the process-exit handler then finds the state still in
      edit mode and deletes the file. */
  lemma NotUtf8ExitDeletesLock(now: int)
    ensures var f: PyLock.LockFile := Some(Err(PyLock.NotUtf8));
            var start := Startup(f, "bob", now, true);
            && start.file == f
            && start.state.screen == Failed && start.state.mode == EditMode
            && Step(start, "bob", Exit).file.None?
  {
  }

  // ---------------------------------------------------------------------
  // Corrected lifecycle: the mode is None until the verdict decides it.
  // ---------------------------------------------------------------------

  datatype SafeState = SafeState(mode: Option<Mode>, lockedBy: Option<string>, screen: Screen)

  datatype SafeWorld = SafeWorld(state: SafeState, file: PyLock.LockFile)

  /** The mode a verdict decides: edit only when this session wrote the
      lock, undecided while the zombie question is open or when the check
      raised. */
  function ModeOf(r: Option<PyLock.LockResult>): (m: Option<Mode>)
    ensures m == Some(EditMode) <==> r == Some(PyLock.Edit)
    ensures m.None? <==> r.None? || r.value.Zombie?
  {
    match r
    case Some(Edit) => Some(EditMode)
    case Some(ReadOnly(_)) => Some(ReadOnlyMode)
    case _ => None
  }

  /** Startup with the mode set from the verdict before the schema set-up. */
  function SafeStartup(file: PyLock.LockFile, me: string, now: int, schemaOk: bool): (w: SafeWorld)
    ensures w.file == PyLock.CheckLockOnStartup(file, me, now).file
    ensures w.state.mode == Some(EditMode) <==> PyLock.CheckLockOnStartup(file, me, now).result == Ok(PyLock.Edit)
    ensures var v := Verdict(PyLock.CheckLockOnStartup(file, me, now));
            && (w.state.screen == Failed <==> v.None?)
            && (w.state.screen == ZombieDialog <==> v.Some? && schemaOk && v.value.Zombie?)
            && (w.state.screen == SchemaError <==> v.Some? && !schemaOk)
  {
    var c := PyLock.CheckLockOnStartup(file, me, now);
    var v := Verdict(c);
    var screen := if v.None? then Failed else if !schemaOk then SchemaError else if v.value.Zombie? then ZombieDialog else Listing;
    SafeWorld(SafeState(ModeOf(v), if v.Some? then PyLock.LockedBy(v.value) else None, screen), c.file)
  }

  /** Release only in a decided edit mode. */
  function SafeRelease(mode: Option<Mode>, file: PyLock.LockFile): (r: PyLock.LockFile)
    ensures mode == Some(EditMode) ==> r.None?
    ensures mode != Some(EditMode) ==> r == file
  {
    if mode == Some(EditMode) then PyLock.ReleaseLock(file) else file
  }

  function SafeStep(w: SafeWorld, me: string, e: Event): (r: SafeWorld)
    ensures e.Window? && e.data != "close" ==> r == w
    ensures w.state.screen != ZombieDialog && (e.OpenReadOnly? || e.ForceUnlock?) ==> r == w
    ensures e.ForceUnlock? && w.state.screen == ZombieDialog
            ==> r.state.mode == Some(EditMode)
                && PyLock.ReadLock(r.file) == Ok(Some(PyLock.Object(PyLock.LockData(Some(me), PyLock.Naive(e.now)))))
    ensures e.OpenReadOnly? && w.state.screen == ZombieDialog
            ==> r.state.mode == Some(ReadOnlyMode) && r.file == w.file
    ensures e.Exit? || e == Window("close") ==> r.state == w.state && r.file == SafeRelease(w.state.mode, w.file)
  {
    match e
    case OpenReadOnly =>
      if w.state.screen == ZombieDialog then w.(state := w.state.(mode := Some(ReadOnlyMode), screen := Listing))
      else w
    case ForceUnlock(now) =>
      if w.state.screen == ZombieDialog then
        SafeWorld(w.state.(mode := Some(EditMode), lockedBy := None, screen := Listing), PyLock.ForceAcquireLock(w.file, me, now))
      else w
    case Window(data) =>
      if data == "close" then w.(file := SafeRelease(w.state.mode, w.file)) else w
    case Exit =>
      w.(file := SafeRelease(w.state.mode, w.file))
  }

  /** Events in order; `others` replaces the lock file before each event to
      stand for writes by other processes. */
  function SafeRun(w: SafeWorld, me: string, events: seq<Event>, others: seq<PyLock.LockFile>): (r: SafeWorld)
    requires |others| == |events|
    decreases |events|
  {
    if |events| == 0 then w
    else SafeRun(SafeStep(w.(file := others[0]), me, events[0]), me, events[1..], others[1..])
  }

  predicate NoForceUnlock(events: seq<Event>) {
    forall i :: 0 <= i < |events| ==> !events[i].ForceUnlock?
  }

  /** Without a force-unlock, a session whose verdict was not edit never
      enters edit mode, whatever the other processes write meanwhile. */
  lemma {:induction false} SafeRunStaysOutOfEdit(w: SafeWorld, me: string, events: seq<Event>, others: seq<PyLock.LockFile>)
    requires |others| == |events|
    requires w.state.mode != Some(EditMode)
    requires NoForceUnlock(events)
    ensures SafeRun(w, me, events, others).state.mode != Some(EditMode)
    decreases |events|
  {
    if |events| > 0 {
      var next := SafeStep(w.(file := others[0]), me, events[0]);
      assert !events[0].ForceUnlock?;
      assert next.state.mode != Some(EditMode);
      assert NoForceUnlock(events[1..]) by {
        forall i | 0 <= i < |events[1..]| ensures !events[1..][i].ForceUnlock? {
          assert events[1..][i] == events[i + 1];
        }
      }
      SafeRunStaysOutOfEdit(next, me, events[1..], others[1..]);
    }
  }

  /** The corrected lifecycle never deletes a lock it did not take: after
      any run without a force-unlock from a non-edit verdict, both exit paths
      leave whatever file is present untouched. */
  lemma SafeExitKeepsForeignLock(file: PyLock.LockFile, me: string, now: int, schemaOk: bool,
                                 events: seq<Event>, others: seq<PyLock.LockFile>, atExit: PyLock.LockFile)
    requires |others| == |events|
    requires PyLock.CheckLockOnStartup(file, me, now).result != Ok(PyLock.Edit)
    requires NoForceUnlock(events)
    ensures var w := SafeRun(SafeStartup(file, me, now, schemaOk), me, events, others);
            && SafeStep(w.(file := atExit), me, Exit).file == atExit
            && SafeStep(w.(file := atExit), me, Window("close")).file == atExit
  {
    SafeRunStaysOutOfEdit(SafeStartup(file, me, now, schemaOk), me, events, others);
  }

  /** The correction keeps the release of a lock the session did take,
      including when the schema set-up failed afterwards. */
  lemma SafeExitReleasesOwnLock(file: PyLock.LockFile, me: string, now: int, schemaOk: bool)
    requires PyLock.CheckLockOnStartup(file, me, now).result == Ok(PyLock.Edit)
    ensures SafeStep(SafeStartup(file, me, now, schemaOk), me, Exit).file.None?
    ensures SafeStep(SafeStartup(file, me, now, schemaOk), me, Window("close")).file.None?
  {
  }

  /** On the inputs where the written code is right (the check gave a
      verdict, the schema set-up succeeded and no dialog is pending) the
      corrected startup agrees with it on the file and on whether the
      session edits. */
  lemma SafeAgreesWhenDecided(file: PyLock.LockFile, me: string, now: int)
    requires PyLock.CheckLockOnStartup(file, me, now).result.Ok?
    requires !PyLock.CheckLockOnStartup(file, me, now).result.value.Zombie?
    ensures SafeStartup(file, me, now, true).file == Startup(file, me, now, true).file
    ensures SafeStartup(file, me, now, true).state.mode == Some(Startup(file, me, now, true).state.mode)
  {
  }
}
