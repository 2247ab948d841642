/** The edit lock of the Python build (`app/utils/lock.py`): a JSON file
    holding the holder's name and the acquisition time only. There is no
    ownership test, no heartbeat, and release is unconditional. */
module PyLock {
  import opened Wrappers

  /** `ZOMBIE_THRESHOLD_HOURS` (1) in seconds. */
  const ZombieAfter: int := 1 * 3600

  /** Shown as the holder when the record has no `user` key. */
  const UnknownUser: string := "\U{4E0D}\U{660E}"

  /** The `locked_at` entry as `is_zombie_lock` meets it: missing
      (KeyError), not a string (`fromisoformat` raises TypeError), a string
      that is not an ISO-8601 date-time (ValueError), a date-time without a
      UTC offset, or one with an offset (subtracting it from the naive
      `datetime.now()` raises TypeError). */
  datatype Stamp = Missing | NotText | Unparsable | Naive(seconds: int) | Aware(seconds: int)

  /** The fields of a decoded JSON object. `user` is None when the key is
      missing. */
  datatype LockData = LockData(user: Option<string>, lockedAt: Stamp)

  /** What `json.load` returned: an object, `null`, or any other JSON value
      (an array, a string, a number or a boolean). */
  datatype Json = Object(data: LockData) | Null | NotObject

  /** A file `read_lock` cannot decode: one that raises an OS error on
      reading or fails JSON decoding (`Corrupt`), or one whose bytes are not
      valid UTF-8 (`NotUtf8`), say a record cut off inside a multi-byte
      user name. */
  datatype Broken = Corrupt | NotUtf8

  type LockFile = Option<Result<Json, Broken>>

  /** The exceptions that escape `check_lock_on_startup`. The `except`
      clause of `read_lock` catches JSONDecodeError and OSError only, so the
      UnicodeDecodeError of a file that is not UTF-8 passes it; that of
      `is_zombie_lock` catches KeyError and ValueError only, so a TypeError
      passes it. */
  datatype Crash = TypeError | UnicodeDecodeError

  /** The startup verdict, the `(mode, locked_by)` pair of the source. */
  datatype LockResult = Edit | ReadOnly(holder: string) | Zombie(holder: string)

  /** The mode string of a verdict. */
  function ModeName(r: LockResult): string {
    match r
    case Edit => "edit"
    case ReadOnly(_) => "readonly"
    case Zombie(_) => "zombie"
  }

  /** The `locked_by` half of a verdict. */
  function LockedBy(r: LockResult): Option<string> {
    match r
    case Edit => None
    case ReadOnly(u) => Some(u)
    case Zombie(u) => Some(u)
  }

  /** `read_lock`: a missing file, an unreadable or undecodable one and one
      holding JSON `null` read as None; a file that is not UTF-8 raises
      UnicodeDecodeError, which its `except` clause does not catch. */
  function ReadLock(file: LockFile): (r: Result<Option<Json>, Crash>)
    ensures r.Err? <==> file == Some(Err(NotUtf8))
    ensures r.Err? ==> r.error == UnicodeDecodeError
    ensures r == Ok(None) <==> file.None? || file == Some(Err(Corrupt)) || file == Some(Ok(Null))
    ensures r.Ok? && r.value.Some? ==> file == Some(Ok(r.value.value)) && !r.value.value.Null?
  {
    match file
    case None => Ok(None)
    case Some(Err(Corrupt)) => Ok(None)
    case Some(Err(NotUtf8)) => Err(UnicodeDecodeError)
    case Some(Ok(v)) => Ok(if v.Null? then None else Some(v))
  }

  /** `read_lock` as its docstring describes it: every file that cannot be
      decoded, whatever the reason, reads as None. */
  function ReadLockIntended(file: LockFile): (r: Option<Json>)
    ensures r.None? <==> file.None? || file.value.Err? || file.value.value.Null?
    ensures r.Some? ==> file == Some(Ok(r.value)) && !r.value.Null?
  {
    match file
    case Some(Ok(v)) => if v.Null? then None else Some(v)
    case _ => None
  }

  /** The written `read_lock` and the intended one agree on every file
      except one that is not UTF-8, where only the written one raises. */
  lemma ReadLockAgrees(file: LockFile)
    ensures ReadLock(file).Ok? ==> ReadLock(file).value == ReadLockIntended(file)
    ensures ReadLock(file).Err? ==> ReadLockIntended(file).None?
  {
  }

  /** `write_lock`: a record of the caller acquired now, and nothing else. */
  function WriteLock(me: string, now: int): (f: LockFile)
    ensures f == Some(Ok(Object(LockData(Some(me), Naive(now)))))
  {
    Some(Ok(Object(LockData(Some(me), Naive(now)))))
  }

  /** `release_lock`: remove the file, whoever holds it; absent stays absent. */
  function ReleaseLock(file: LockFile): (r: LockFile)
    ensures r.None?
  {
    None
  }

  /** `is_zombie_lock`: acquired more than an hour before `now`, or with a
      missing or unparsable `locked_at`. Any other failure escapes as a
      TypeError: a value that is not an object, a `locked_at` that is not a
      string, or one that carries a UTC offset. */
  function IsZombie(v: Json, now: int): (r: Result<bool, Crash>)
    ensures r.Err? <==> !v.Object? || v.data.lockedAt.NotText? || v.data.lockedAt.Aware?
    ensures v.Object? && v.data.lockedAt.Naive? ==> r == Ok(now - v.data.lockedAt.seconds > ZombieAfter)
    ensures r == Ok(false) ==> v.Object? && v.data.lockedAt.Naive?
  {
    match v
    case Object(d) =>
      (match d.lockedAt
       case Missing => Ok(true)
       case Unparsable => Ok(true)
       case Naive(t) => Ok(now - t > ZombieAfter)
       case _ => Err(TypeError))
    case _ => Err(TypeError)
  }

  /** What the startup check writes after deciding. */
  datatype Write = Keep | Create

  datatype Plan = Plan(result: Result<LockResult, Crash>, write: Write)

  /** Whether the file holds a record for `is_zombie_lock` to judge: it
      reads without raising and is not None. */
  predicate HasRecord(observed: LockFile) {
    ReadLock(observed).Ok? && ReadLock(observed).value.Some?
  }

  /** The decision `check_lock_on_startup` takes on an observed file: a file
      that is not UTF-8 ends the check with the UnicodeDecodeError of
      `read_lock`; no record gives edit and a new record; a record
      `is_zombie_lock` raises on ends the check with the TypeError;
      otherwise staleness alone decides between zombie and readonly. */
  function StartupPlan(observed: LockFile, me: string, now: int): (p: Plan)
    ensures p.result == Ok(Edit) <==> ReadLock(observed) == Ok(None)
    ensures p.write == (if p.result == Ok(Edit) then Create else Keep)
    ensures p.result == Err(UnicodeDecodeError) <==> observed == Some(Err(NotUtf8))
    ensures p.result == Err(TypeError) <==> HasRecord(observed) && IsZombie(ReadLock(observed).value.value, now).Err?
    ensures p.result.Ok? && p.result.value.Zombie? <==> HasRecord(observed) && IsZombie(ReadLock(observed).value.value, now) == Ok(true)
    ensures p.result.Ok? && p.result.value.ReadOnly? <==> HasRecord(observed) && IsZombie(ReadLock(observed).value.value, now) == Ok(false)
    ensures p.result.Ok? && !p.result.value.Edit? ==>
              HasRecord(observed) && ReadLock(observed).value.value.Object?
              && p.result.value.holder == ReadLock(observed).value.value.data.user.GetOr(UnknownUser)
  {
    match ReadLock(observed)
    case Err(e) => Plan(Err(e), Keep)
    case Ok(None) => Plan(Ok(Edit), Create)
    case Ok(Some(v)) =>
      match IsZombie(v, now)
      case Err(e) => Plan(Err(e), Keep)
      case Ok(stale) =>
        var holder := v.data.user.GetOr(UnknownUser);
        Plan(Ok(if stale then Zombie(holder) else ReadOnly(holder)), Keep)
  }

  /** Carry out a planned write; a separate step from the read. */
  function Perform(file: LockFile, w: Write, me: string, now: int): LockFile {
    match w
    case Keep => file
    case Create => WriteLock(me, now)
  }

  datatype Startup = Startup(result: Result<LockResult, Crash>, file: LockFile)

  /** `check_lock_on_startup` run without interference between its read and
      its write. A check that raises leaves the file as it was. */
  function CheckLockOnStartup(file: LockFile, me: string, now: int): (r: Startup)
    ensures r.result == Ok(Edit) ==> r.file == WriteLock(me, now)
    ensures r.result != Ok(Edit) ==> r.file == file
    ensures file.None? || file == Some(Err(Corrupt)) || file == Some(Ok(Null)) ==> r.result == Ok(Edit)
    ensures file == Some(Err(NotUtf8)) ==> r.result == Err(UnicodeDecodeError)
    ensures file.Some? && file.value.Ok? && !file.value.value.Null? ==>
              match IsZombie(file.value.value, now)
              case Err(e) => r.result == Err(e)
              case Ok(stale) =>
                var holder := file.value.value.data.user.GetOr(UnknownUser);
                r.result == Ok(if stale then Zombie(holder) else ReadOnly(holder))
  {
    var p := StartupPlan(file, me, now);
    Startup(p.result, Perform(file, p.write, me, now))
  }

  /** A lock file that fails JSON decoding, or cannot be read at all, is
      silently replaced by the caller's own record. */
  lemma CorruptLockIsTakenOver(me: string, now: int)
    ensures CheckLockOnStartup(Some(Err(Corrupt)), me, now) == Startup(Ok(Edit), WriteLock(me, now))
  {
  }

  /** There is no ownership test: the caller's own live record reads as
      readonly held by the caller. */
  lemma OwnLiveRecordIsReadOnly(me: string, t: int, now: int)
    requires t <= now <= t + ZombieAfter
    ensures CheckLockOnStartup(WriteLock(me, t), me, now).result == Ok(ReadOnly(me))
  {
  }

  /** Staleness counts from acquisition: a record written at `t` is a zombie
      exactly when more than an hour has passed, however active its holder. */
  lemma AgeCountsFromAcquisition(me: string, other: string, t: int, now: int)
    ensures CheckLockOnStartup(WriteLock(me, t), other, now).result.Ok?
    ensures CheckLockOnStartup(WriteLock(me, t), other, now).result.value.Zombie? <==> now - t > ZombieAfter
  {
  }

  /** As written, a record whose `locked_at` carries a UTC offset (say
      "2025-01-01T09:00:00+09:00") makes the startup check raise and leaves
      the file in place, so every later check on it raises too, whoever
      checks and however late. */
  lemma OffsetStampCrashes(user: Option<string>, t: int, me: string, now: int, other: string, later: int)
    ensures var f := Some(Ok(Object(LockData(user, Aware(t)))));
            var first := CheckLockOnStartup(f, me, now);
            && first == Startup(Err(TypeError), f)
            && CheckLockOnStartup(first.file, other, later).result == Err(TypeError)
  {
  }

  /** As written, a lock file that is not valid UTF-8 makes the startup
      check raise and leaves the file in place, so every later check on it
      raises too, whoever checks and however late. */
  lemma NotUtf8Crashes(me: string, now: int, other: string, later: int)
    ensures var f: LockFile := Some(Err(NotUtf8));
            var first := CheckLockOnStartup(f, me, now);
            && first == Startup(Err(UnicodeDecodeError), f)
            && CheckLockOnStartup(first.file, other, later).result == Err(UnicodeDecodeError)
  {
  }

  /** A check that raises leaves a file on which every later check raises,
      with the same exception. */
  lemma {:induction false} CrashPersists(file: LockFile, me: string, now: int, other: string, later: int)
    requires CheckLockOnStartup(file, me, now).result.Err?
    ensures CheckLockOnStartup(file, me, now).file == file
    ensures CheckLockOnStartup(file, other, later).result == CheckLockOnStartup(file, me, now).result
  {
    match ReadLock(file)
    case Err(_) =>
    case Ok(None) =>
    case Ok(Some(v)) =>
      assert IsZombie(v, now).Err?;
      assert IsZombie(v, later).Err?;
  }

  /** `is_zombie_lock` as its comment describes it: a `locked_at` that does
      not give a comparable time marks the record as broken, so stale. */
  function IsZombieIntended(d: LockData, now: int): (r: bool)
    ensures !r <==> d.lockedAt.Naive? && now - d.lockedAt.seconds <= ZombieAfter
  {
    match d.lockedAt
    case Naive(t) => now - t > ZombieAfter
    case _ => true
  }

  /** The startup check with `read_lock` and `is_zombie_lock` as their
      docstrings describe them, and a JSON value that is not an object read
      as a broken file: every undecodable file, a non-UTF-8 one included,
      gives edit. */
  function StartupPlanIntended(observed: LockFile, me: string, now: int): (p: Plan)
    ensures p.result.Ok?
    ensures p.result == Ok(Edit) <==> ReadLockIntended(observed).None? || ReadLockIntended(observed).value.NotObject?
    ensures observed.Some? && observed.value.Err? ==> p == Plan(Ok(Edit), Create)
    ensures p.write == (if p.result == Ok(Edit) then Create else Keep)
  {
    match ReadLockIntended(observed)
    case Some(Object(d)) =>
      var holder := d.user.GetOr(UnknownUser);
      Plan(Ok(if IsZombieIntended(d, now) then Zombie(holder) else ReadOnly(holder)), Keep)
    case _ => Plan(Ok(Edit), Create)
  }

  /** Wherever the written check does not raise, the intended one decides
      the same. */
  lemma IntendedAgrees(observed: LockFile, me: string, now: int)
    requires StartupPlan(observed, me, now).result.Ok?
    ensures StartupPlanIntended(observed, me, now) == StartupPlan(observed, me, now)
  {
    match ReadLock(observed)
    case Err(_) =>
    case Ok(None) =>
    case Ok(Some(v)) =>
      assert IsZombie(v, now) == Ok(IsZombieIntended(v.data, now));
  }

  /** `force_acquire_lock`: release then write, so the file names the caller. */
  function ForceAcquireLock(file: LockFile, me: string, now: int): (r: LockFile)
    ensures ReadLock(r) == Ok(Some(Object(LockData(Some(me), Naive(now)))))
  {
    WriteLock(me, now)
  }

  /** After a forced takeover, anyone checking within the hour reads
      readonly naming the new holder, the new holder included. */
  lemma ForceThenCheck(file: LockFile, me: string, other: string, t: int, now: int)
    requires t <= now <= t + ZombieAfter
    ensures CheckLockOnStartup(ForceAcquireLock(file, me, t), other, now).result == Ok(ReadOnly(me))
  {
  }
}
