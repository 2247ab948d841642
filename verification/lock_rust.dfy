/** The edit lock of the desktop (Rust) build: one JSON record in the shared
    data folder naming the user who may write. Time is integer seconds since
    an epoch; the OS username is the parameter `me`. */
module RustLock {
  import opened Wrappers

  /** A lock whose last activity is more than this many seconds old is a
      zombie (`Duration::hours(1)`). */
  const StaleAfter: int := 3600

  /** A timestamp field as the RFC 3339 parser sees it: the empty string,
      a string that does not parse, or an instant. */
  datatype Stamp = Blank | Garbled | At(seconds: int)

  /** The record stored in the lock file. */
  datatype LockData = LockData(user: string, lockedAt: Stamp, updatedAt: Stamp)

  /** A lock file that exists but cannot be read or does not decode as `LockData`. */
  datatype Corrupt = Corrupt

  /** The lock file: absent, unreadable, or a decoded record. */
  type LockFile = Option<Result<LockData, Corrupt>>

  /** The access mode a process derives from the lock file. */
  datatype LockStatus = Edit | ReadOnly(holder: string) | Zombie(holder: string)

  /** The record `write_lock` stores: the caller, acquired and active now. */
  function Fresh(me: string, now: int): LockData {
    LockData(me, At(now), At(now))
  }

  /** The file holds a decodable record naming `user`. */
  predicate HeldBy(file: LockFile, user: string) {
    file.Some? && file.value.Ok? && file.value.value.user == user
  }

  /** The stamp staleness is measured from: `updated_at`, or `locked_at`
      when `updated_at` is empty. */
  function LastActive(d: LockData): Stamp {
    if d.updatedAt != Blank then d.updatedAt else d.lockedAt
  }

  /** `is_zombie_lock`: the last activity is more than an hour before `now`,
      or its timestamp does not parse. */
  predicate IsZombie(d: LockData, now: int) {
    match LastActive(d)
    case At(t) => now - t > StaleAfter
    case _ => true
  }

  /** The staleness test, stated field by field. */
  lemma ZombieRule(d: LockData, now: int)
    ensures d.updatedAt.At? ==> (IsZombie(d, now) <==> now - d.updatedAt.seconds > StaleAfter)
    ensures d.updatedAt.Garbled? ==> IsZombie(d, now)
    ensures d.updatedAt.Blank? && d.lockedAt.At? ==> (IsZombie(d, now) <==> now - d.lockedAt.seconds > StaleAfter)
    ensures d.updatedAt.Blank? && !d.lockedAt.At? ==> IsZombie(d, now)
  {
  }

  /** Once a record is a zombie it stays one as time passes. */
  lemma ZombieIsPermanent(d: LockData, now: int, later: int)
    requires now <= later && IsZombie(d, now)
    ensures IsZombie(d, later)
  {
  }

  /** `update_lock_timestamp`: re-read the file and, when it is a record of
      the caller, set its `updated_at` to now; anything else is left as is. */
  function UpdateLockTimestamp(file: LockFile, me: string, now: int): (r: LockFile)
    ensures HeldBy(file, me) ==> r == Some(Ok(file.value.value.(updatedAt := At(now))))
    ensures !HeldBy(file, me) ==> r == file
  {
    match file
    case Some(Ok(d)) => if d.user == me then Some(Ok(d.(updatedAt := At(now)))) else file
    case _ => file
  }

  /** What the startup check writes after deciding. */
  datatype Write = Keep | Create | Touch

  /** The decision of the startup check on the file contents it read. */
  datatype Plan = Plan(status: LockStatus, write: Write)

  /** The decision `check_lock_on_startup` takes on an observed file:
      absent gives Edit and a new record; a decoded record is checked for
      staleness before ownership; an unreadable one gives ReadOnly("Unknown"). */
  function StartupPlan(observed: LockFile, me: string, now: int): (p: Plan)
    ensures p.status.Edit? <==> observed.None? || (HeldBy(observed, me) && !IsZombie(observed.value.value, now))
    ensures p.status.Zombie? <==> observed.Some? && observed.value.Ok? && IsZombie(observed.value.value, now)
    ensures p.status.Zombie? ==> p.status.holder == observed.value.value.user
    ensures p.status.ReadOnly? && observed.value.Ok? ==> p.status.holder == observed.value.value.user && p.status.holder != me
    ensures observed.Some? && observed.value.Err? ==> p.status == ReadOnly("Unknown")
    ensures p.write == (if observed.None? then Create else if p.status.Edit? then Touch else Keep)
  {
    match observed
    case None => Plan(Edit, Create)
    case Some(Err(_)) => Plan(ReadOnly("Unknown"), Keep)
    case Some(Ok(d)) =>
      if IsZombie(d, now) then Plan(Zombie(d.user), Keep)
      else if d.user == me then Plan(Edit, Touch)
      else Plan(ReadOnly(d.user), Keep)
  }

  /** Carry out a planned write on the file as it is at write time. The
      write is a separate step from the read that decided it: nothing makes
      the pair atomic. */
  function Perform(file: LockFile, w: Write, me: string, now: int): LockFile {
    match w
    case Keep => file
    case Create => Some(Ok(Fresh(me, now)))
    case Touch => UpdateLockTimestamp(file, me, now)
  }

  /** The result of the startup check: the status and the lock file after it. */
  datatype Startup = Startup(status: LockStatus, file: LockFile)

  /** `check_lock_on_startup` run without interference between its read and its write. */
  function CheckLockOnStartup(file: LockFile, me: string, now: int): (r: Startup)
    ensures file.None? ==> r == Startup(Edit, Some(Ok(Fresh(me, now))))
    ensures r.status.Edit? ==> HeldBy(r.file, me) && r.file.value.value.updatedAt == At(now)
    ensures r.status.Edit? && file.Some? ==> HeldBy(file, me) && r.file.value.value.lockedAt == file.value.value.lockedAt
    ensures !r.status.Edit? ==> r.file == file
    ensures file.Some? && file.value.Ok? && IsZombie(file.value.value, now) ==> r.status == Zombie(file.value.value.user)
    ensures file.Some? && file.value.Ok? && !IsZombie(file.value.value, now) && file.value.value.user != me
            ==> r.status == ReadOnly(file.value.value.user)
    ensures file.Some? && file.value.Err? ==> r == Startup(ReadOnly("Unknown"), file)
  {
    var p := StartupPlan(file, me, now);
    Startup(p.status, Perform(file, p.write, me, now))
  }

  /** The caller's own record, when stale, is reported as a zombie like anyone else's. */
  lemma OwnStaleRecordIsZombie(d: LockData, me: string, now: int)
    requires d.user == me && IsZombie(d, now)
    ensures CheckLockOnStartup(Some(Ok(d)), me, now).status == Zombie(me)
  {
  }

  /** `update_heartbeat`: refresh the timestamp only while this process is in Edit. */
  function UpdateHeartbeat(status: LockStatus, file: LockFile, me: string, now: int): (r: LockFile)
    ensures !status.Edit? ==> r == file
    ensures !HeldBy(file, me) ==> r == file
    ensures status.Edit? && HeldBy(file, me) ==>
              r == Some(Ok(LockData(me, file.value.value.lockedAt, At(now))))
  {
    if status.Edit? then UpdateLockTimestamp(file, me, now) else file
  }

  /** After the owner's heartbeat at `t` the record stays live for an hour:
      anyone else checking reads ReadOnly naming the owner, the owner reads Edit. */
  lemma HeartbeatKeepsLockLive(file: LockFile, me: string, other: string, t: int, now: int)
    requires HeldBy(file, me) && other != me
    requires t <= now <= t + StaleAfter
    ensures var f := UpdateHeartbeat(Edit, file, me, t);
            && CheckLockOnStartup(f, other, now) == Startup(ReadOnly(me), f)
            && CheckLockOnStartup(f, me, now).status == Edit
  {
  }

  /** `release_lock`: delete the file only when it holds a record of the caller. */
  function ReleaseLock(file: LockFile, me: string): (r: LockFile)
    ensures HeldBy(file, me) ==> r.None?
    ensures !HeldBy(file, me) ==> r == file
  {
    match file
    case Some(Ok(d)) => if d.user == me then None else file
    case _ => file
  }

  /** A process that started in Edit and releases on exit leaves no lock
      behind, provided nobody touched the file in between. */
  lemma StartupThenReleaseEmpties(file: LockFile, me: string, now: int)
    requires CheckLockOnStartup(file, me, now).status.Edit?
    ensures ReleaseLock(CheckLockOnStartup(file, me, now).file, me).None?
  {
  }

  /** `force_acquire_lock_internal`: remove the file and write a fresh record
      of the caller, whatever was there. */
  function ForceAcquireInternal(file: LockFile, me: string, now: int): (r: LockFile)
    ensures HeldBy(r, me)
    ensures r.value.value.lockedAt == At(now) && r.value.value.updatedAt == At(now)
  {
    var removed: LockFile := None;
    Perform(removed, Create, me, now)
  }

  /** `force_acquire_lock`: force the file and set the in-process status to Edit. */
  function ForceAcquire(file: LockFile, me: string, now: int): (r: Startup)
    ensures r.status == Edit
    ensures r.file == ForceAcquireInternal(file, me, now)
  {
    Startup(Edit, ForceAcquireInternal(file, me, now))
  }

  /** Within the hour after a force-acquire, the new holder reads Edit and
      everyone else ReadOnly naming it, whatever the previous record was. */
  lemma ForceThenCheck(file: LockFile, me: string, other: string, t: int, now: int)
    requires other != me && t <= now <= t + StaleAfter
    ensures var f := ForceAcquire(file, me, t).file;
            && CheckLockOnStartup(f, me, now).status == Edit
            && CheckLockOnStartup(f, other, now) == Startup(ReadOnly(me), f)
  {
  }

  /** The payload sent to the frontend (`LockInfo`). */
  datatype LockInfo = LockInfo(mode: string, lockedBy: Option<string>, currentUser: string, displayName: string)

  /** `LockInfo::from_status`: the display name is the configured one, or
      the account's real name when none is set. */
  function FromStatus(status: LockStatus, osUser: string, configuredName: Option<string>, realName: string): (info: LockInfo)
    ensures info.mode in {"edit", "readonly", "zombie"}
    ensures info.lockedBy.None? <==> status.Edit?
    ensures !status.Edit? ==> info.lockedBy == Some(status.holder)
    ensures info.currentUser == osUser
    ensures info.displayName == configuredName.GetOr(realName)
  {
    var name := configuredName.GetOr(realName);
    match status
    case Edit => LockInfo("edit", None, osUser, name)
    case ReadOnly(u) => LockInfo("readonly", Some(u), osUser, name)
    case Zombie(u) => LockInfo("zombie", Some(u), osUser, name)
  }

  /** The status a frontend reconstructs from a `LockInfo`. */
  function StatusOfInfo(info: LockInfo): Option<LockStatus> {
    match (info.mode, info.lockedBy)
    case ("edit", None) => Some(Edit)
    case ("readonly", Some(u)) => Some(ReadOnly(u))
    case ("zombie", Some(u)) => Some(Zombie(u))
    case _ => None
  }

  /** `LockInfo` loses nothing about the status: it can be read back exactly. */
  lemma InfoRoundTrip(status: LockStatus, osUser: string, configuredName: Option<string>, realName: string)
    ensures StatusOfInfo(FromStatus(status, osUser, configuredName, realName)) == Some(status)
  {
  }

  /** A crash-recovery run: A starts at 0, B polls at 10
      and 70 while A heartbeats at 60, A then stops, C polls at 3661, finds a
      zombie and forces; B's next poll names C. */
  lemma CrashRecoveryScenario()
    ensures var a0 := CheckLockOnStartup(None, "A", 0);
            var b10 := CheckLockOnStartup(a0.file, "B", 10);
            var f60 := UpdateHeartbeat(a0.status, b10.file, "A", 60);
            var b70 := CheckLockOnStartup(f60, "B", 70);
            var c := CheckLockOnStartup(b70.file, "C", 3661);
            var forced := ForceAcquire(c.file, "C", 3662);
            var b := CheckLockOnStartup(forced.file, "B", 3700);
            && a0.status == Edit
            && b10.status == ReadOnly("A")
            && b70.status == ReadOnly("A")
            && c.status == Zombie("A")
            && forced.status == Edit
            && b.status == ReadOnly("C")
  {
  }

  /** Two processes that both read an absent file before either writes both
      decide Edit; the file ends up naming only the later writer, so the
      earlier one edits while its heartbeat and its release do nothing. */
  lemma CreateRaceGivesTwoEditors(a: string, b: string, t1: int, t2: int, now: int)
    requires a != b
    ensures var pa := StartupPlan(None, a, t1);
            var pb := StartupPlan(None, b, t2);
            var f := Perform(Perform(None, pa.write, a, t1), pb.write, b, t2);
            && pa.status == Edit && pb.status == Edit
            && HeldBy(f, b)
            && UpdateHeartbeat(pa.status, f, a, now) == f
            && ReleaseLock(f, a) == f
  {
  }
}
