/** One login kept in the system keychain or in a file, saved, loaded and cleared by either kind of process. */
module CredentialStore {
  import RecordFile

  datatype Entry<T> = Nothing | Holds(creds: T) | Garbage

  datatype Loaded<T> = Found(creds: T) | NotFound | Unreadable

  /** Which keychain calls get through; this stays the same from one call to the next. */
  datatype Reach = Reach(gets: bool, sets: bool, deletes: bool)

  /** How a process treats the keychain, and what the keychain lets it do. */
  datatype Process = Process(useKeyring: bool, clearKeyring: bool, reach: Reach) {
    /** Whether a save by this process goes to the keychain. */
    predicate ToKeychain() {
      useKeyring && reach.sets
    }

    predicate LooksAfterKeychain() {
      useKeyring || clearKeyring
    }
  }

  /** `Late` is a failure after the whole record went in; `Torn` one in the middle, which leaves what it leaves. */
  datatype Write<T> = Written | Refused | Late | Torn(left: Entry<T>)

  /** Both places, and whether the operation succeeded. */
  datatype After<T> = After(ok: bool, keychain: Entry<T>, file: Entry<T>)

  /** What `Load` of a process with or without the keychain returns. */
  function LoadOf<T>(useKeyring: bool, reach: Reach, keychain: Entry<T>, file: Entry<T>): Loaded<T> {
    if useKeyring && reach.gets && !keychain.Nothing? then
      if keychain.Holds? then Found(keychain.creds) else Unreadable
    else
      match file
      case Nothing => NotFound
      case Holds(creds) => Found(creds)
      case Garbage => Unreadable
  }

  /** The place a load looks at: the keychain as long as it answers with an entry, and else the file. */
  function Seen<T>(useKeyring: bool, reach: Reach, keychain: Entry<T>, file: Entry<T>): Entry<T> {
    if useKeyring && reach.gets && keychain != Nothing then keychain else file
  }

  /** A load finds what is there, nothing where nothing is, and reports what it cannot read. */
  lemma LoadsWhatIsSeen<T>(useKeyring: bool, reach: Reach, keychain: Entry<T>, file: Entry<T>, creds: T)
    ensures var loaded, seen := LoadOf(useKeyring, reach, keychain, file), Seen(useKeyring, reach, keychain, file);
      && (loaded == Found(creds) <==> seen == Holds(creds))
      && (loaded.NotFound? <==> seen.Nothing?) && (loaded.Unreadable? <==> seen.Garbage?)
  {
  }

  function Loads<T>(p: Process, a: After<T>): Loaded<T> {
    LoadOf(p.useKeyring, p.reach, a.keychain, a.file)
  }

  /** What a write leaves in the file. */
  function AfterWrite<T>(before: Entry<T>, creds: T, write: Write<T>): Entry<T> {
    match write
    case Written => Holds(creds)
    case Refused => before
    case Late => Holds(creds)
    case Torn(left) => left
  }

  function AfterDelete<T>(reach: Reach, keychain: Entry<T>): Entry<T> {
    if reach.deletes then Nothing else keychain
  }

  /** Nothing of this entry will be seen once it has been deleted as far as the keychain lets it. */
  predicate Removable<T>(reach: Reach, entry: Entry<T>) {
    reach.deletes || !reach.gets || entry.Nothing?
  }

  function SaveOf<T>(p: Process, keychain: Entry<T>, file: Entry<T>, creds: T, locks: bool, write: Write<T>,
      truncates: bool): After<T> {
    if !locks then After(false, keychain, file)
    else if p.ToKeychain() then After(true, Holds(creds), if truncates then Nothing else file)
    else if !write.Written? then After(false, keychain, AfterWrite(file, creds, write))
    else if !p.LooksAfterKeychain() then After(true, keychain, Holds(creds))
    else After(Removable(p.reach, keychain), AfterDelete(p.reach, keychain), Holds(creds))
  }

  /** `emptiesOthers` tells whether the pending login and the service record could be emptied. */
  function ClearOf<T>(p: Process, keychain: Entry<T>, file: Entry<T>, locks: bool, truncates: bool,
      emptiesOthers: bool): After<T> {
    if !locks then After(false, keychain, file)
    else
      After((!p.LooksAfterKeychain() || Removable(p.reach, keychain)) && (truncates || file.Nothing?) && emptiesOthers,
            if p.LooksAfterKeychain() then AfterDelete(p.reach, keychain) else keychain,
            if truncates then Nothing else file)
  }

  /** Nothing that a process which looks after the keychain would find there. */
  predicate Unseen<T>(p: Process, keychain: Entry<T>) {
    p.LooksAfterKeychain() && p.reach.gets ==> keychain.Nothing?
  }

  /**
   * A save succeeds if and only if it had the lock and either went to the keychain, or its whole record went to the
   * file and no older keychain entry is left that this process would see; without the lock nothing changes.
   */
  lemma SaveSucceedsExactlyWhen<T>(p: Process, keychain: Entry<T>, file: Entry<T>, creds: T, locks: bool,
      write: Write<T>, truncates: bool)
    ensures var a := SaveOf(p, keychain, file, creds, locks, write, truncates);
      && (a.ok <==> locks && (p.ToKeychain() || (write.Written? && Unseen(p, a.keychain))))
      && (!locks ==> a.keychain == keychain && a.file == file)
      && (locks && p.ToKeychain() ==> a.keychain == Holds(creds) && (truncates ==> a.file.Nothing?))
  {
  }

  /** Signing out succeeds if and only if it had the lock and nothing is left that either kind of process would see. */
  lemma ClearSucceedsExactlyWhen<T>(p: Process, keychain: Entry<T>, file: Entry<T>, locks: bool, truncates: bool,
      emptiesOthers: bool)
    ensures var a := ClearOf(p, keychain, file, locks, truncates, emptiesOthers);
      && (a.ok <==> locks && emptiesOthers && a.file.Nothing? && Unseen(p, a.keychain))
      && (!locks || !p.LooksAfterKeychain() ==> a.keychain == keychain)
      && (!locks ==> a.file == file)
      && (locks && truncates ==> a.file.Nothing?)
  {
  }

  /**
   * After a success this process's next load returns exactly what was saved, whatever the keychain
   * and the file held, if and only if the keychain does not take an entry that it will not give
   * back, or the file happens to hold that login and could not be emptied.
   */
  lemma SavedIsLoadedExactlyWhen<T>(p: Process, keychain: Entry<T>, file: Entry<T>, creds: T, write: Write<T>,
      truncates: bool)
    ensures var a := SaveOf(p, keychain, file, creds, true, write, truncates);
      a.ok ==>
        (Loads(p, a) == Found(creds) <==> !p.ToKeychain() || p.reach.gets || (!truncates && file == Holds(creds)))
  {
  }

  /**
   * A keychain that takes entries and does not give them back: the save succeeds, and the next load returns
   * the old login.
   */
  lemma QuietKeychainLosesLogin()
    ensures var p := Process(true, true, Reach(false, true, true));
      var a := SaveOf(p, Nothing, Holds(1), 2, true, Written, false);
      a.ok && Loads(p, a) == Found(1)
  {
  }

  /**
   * A save that went to the file is what every process loads; one that went to the keychain is what
   * every keychain process loads, and file processes load nothing, or what the file still holds.
   */
  lemma SavedIsLoadedByAll<T>(p: Process, keychain: Entry<T>, file: Entry<T>, creds: T, write: Write<T>,
      truncates: bool)
    ensures var a := SaveOf(p, keychain, file, creds, true, write, truncates);
      && (a.ok && !p.ToKeychain() ==> LoadOf(false, p.reach, a.keychain, a.file) == Found(creds))
      && (a.ok && (p.LooksAfterKeychain() && (p.ToKeychain() ==> p.reach.gets)) ==>
            LoadOf(true, p.reach, a.keychain, a.file) == Found(creds))
      && (p.ToKeychain() ==>
            LoadOf(false, p.reach, a.keychain, a.file)
            == if truncates then NotFound else LoadOf(false, p.reach, keychain, file))
  {
  }

  /**
   * After a failure the process loads what it did before or the new login, unless the write was torn;
   * then it loads what the tear left, if the keychain does not answer for it.
   */
  lemma FailedSaveLoads<T>(p: Process, keychain: Entry<T>, file: Entry<T>, creds: T, locks: bool, write: Write<T>,
      truncates: bool)
    ensures var a := SaveOf(p, keychain, file, creds, locks, write, truncates);
      var before := LoadOf(p.useKeyring, p.reach, keychain, file);
      !a.ok ==>
        || Loads(p, a) == before || Loads(p, a) == Found(creds)
        || (locks && !p.ToKeychain() && write.Torn? && Loads(p, a) == LoadOf(false, p.reach, keychain, write.left))
  {
  }

  /**
   * A cleared login is gone for file processes, and for keychain processes if and only if this one
   * looks after the keychain or it answered with nothing anyway.  After a failure it may be left only
   * where it could not be removed.
   */
  lemma ClearedIsGoneExactlyWhen<T>(p: Process, keychain: Entry<T>, file: Entry<T>, truncates: bool,
      emptiesOthers: bool)
    ensures var a := ClearOf(p, keychain, file, true, truncates, emptiesOthers);
      && (a.ok ==>
            && LoadOf(false, p.reach, a.keychain, a.file) == NotFound
            && (LoadOf(true, p.reach, a.keychain, a.file) == NotFound
                <==> p.LooksAfterKeychain() || !p.reach.gets || keychain.Nothing?))
      && (!a.ok && Loads(p, a) != NotFound ==>
            (!truncates && !file.Nothing?) || (p.reach.gets && !p.reach.deletes && !keychain.Nothing?))
  {
  }

  /** What a load of these bytes finds. */
  function EntryOf(c: RecordFile.Codec, bytes: RecordFile.Bytes): Entry<RecordFile.Members> {
    if c.blank(bytes) then Nothing
    else
      match RecordFile.Unframe(c, bytes)
      case Record(members) => Holds(members)
      case _ => Garbage
  }

  /** Blank bytes are nothing, a record that holds together is a login, and everything else is garbage. */
  lemma EntryExactlyWhen(c: RecordFile.Codec, bytes: RecordFile.Bytes)
    ensures EntryOf(c, bytes).Nothing? <==> c.blank(bytes)
    ensures EntryOf(c, bytes).Garbage? <==> !c.blank(bytes) && !RecordFile.Unframe(c, bytes).Record?
  {
  }

  /** What a tear of one record over another can leave that loads as neither: exactly the mistakable states. */
  lemma TornLoadsAnotherExactlyWhen(c: RecordFile.Codec, before: RecordFile.Bytes, oldRecord: RecordFile.Members,
      newRecord: RecordFile.Members, k: nat)
    requires RecordFile.Sound(c) && RecordFile.CHECKSUM !in oldRecord && RecordFile.CHECKSUM !in newRecord
    requires k <= |RecordFile.Frame(c, newRecord)|
    ensures var bytes := RecordFile.Overlay(before, RecordFile.Frame(c, newRecord), k);
      var left := EntryOf(c, bytes);
      (left.Holds? && left.creds != oldRecord && left.creds != newRecord)
      <==> RecordFile.Mistakable(c, bytes, oldRecord, newRecord)
  {
    var bytes := RecordFile.Overlay(before, RecordFile.Frame(c, newRecord), k);
    RecordFile.MistakenExactlyWhen(c, bytes, oldRecord, newRecord);
  }

  class Store<T> {
    const process: Process
    var keychain: Entry<T>
    var file: Entry<T>

    constructor (process: Process, keychain: Entry<T>, file: Entry<T>)
      ensures this.process == process && this.keychain == keychain && this.file == file
    {
      this.process, this.keychain, this.file := process, keychain, file;
    }

    /** Empties the file without deleting it; a missing or empty one needs nothing. */
    method TruncateIfExists(possible: bool) returns (ok: bool)
      modifies `file
      ensures ok == (possible || old(file).Nothing?)
      ensures file == if ok then Nothing else old(file)
    {
      ok := possible || file.Nothing?;
      if ok {
        file := Nothing;
      }
    }

    method WriteRecord(creds: T, write: Write<T>) returns (ok: bool)
      modifies `file
      ensures ok == write.Written?
      ensures file == AfterWrite(old(file), creds, write)
    {
      match write
      case Written => file := Holds(creds); ok := true;
      case Refused => ok := false;
      case Late => file := Holds(creds); ok := false;
      case Torn(left) => file := left; ok := false;
    }

    /** Removes the entry; a keychain that refuses is only a problem if it still answers with one. */
    method DeleteEntry() returns (ok: bool)
      modifies `keychain
      ensures keychain == AfterDelete(process.reach, old(keychain))
      ensures !ok <==> process.reach.gets && !keychain.Nothing?
    {
      if process.reach.deletes {
        keychain := Nothing;
        return true;
      }
      ok := !(process.reach.gets && !keychain.Nothing?);
    }

    method Save(creds: T, locks: bool, write: Write<T>, truncates: bool) returns (ok: bool)
      modifies `keychain, `file
      ensures After(ok, keychain, file)
           == SaveOf(process, old(keychain), old(file), creds, locks, write, truncates)
    {
      if !locks {
        return false;
      }
      if process.useKeyring {
        if process.reach.sets {
          keychain := Holds(creds);
          var emptied := TruncateIfExists(truncates);
          return true;
        }
      }
      var written := WriteRecord(creds, write);
      if !written {
        return false;
      }
      ok := true;
      if process.useKeyring || process.clearKeyring {
        ok := DeleteEntry();
      }
    }

    method Clear(locks: bool, truncates: bool, emptiesOthers: bool) returns (ok: bool)
      modifies `keychain, `file
      ensures After(ok, keychain, file)
           == ClearOf(process, old(keychain), old(file), locks, truncates, emptiesOthers)
    {
      if !locks {
        return false;
      }
      var cleared := true;
      if process.useKeyring || process.clearKeyring {
        cleared := DeleteEntry();
      }
      var emptied := TruncateIfExists(truncates);
      ok := cleared && emptied && emptiesOthers;
    }
  }
}
