/**
 * `CleanupService`: a set of active session ids whose database files must not be deleted,
 * an age-based sweep of the upload and processed folders, and the `running` flag of the
 * periodic loop. Times are integer seconds; a folder is a map from file name to entry.
 */
module Cleanup {
  import opened Wrappers
  import opened Text
  import Sessions

  const UploadSuffix: string := ".sqlite3"
  const FixedSuffix: string := "_fixed.sqlite3"

  /** A directory entry: whether it is a regular file, and its modification time. */
  datatype Entry = Entry(isFile: bool, mtime: int)

  /** A folder that may not exist. */
  datatype Directory = Missing | Listing(entries: map<string, Entry>)

  /**
   * The session id encoded in a file name, as the filename parsing is written: a
   * "_fixed.sqlite3" name loses only its last 13 characters, so the "_" stays on the id.
   */
  function SessionIdOfAsWritten(name: string): (r: Option<string>)
    ensures r.None? <==> !EndsWith(name, UploadSuffix)
    ensures r.Some? && EndsWith(name, FixedSuffix) ==> r.value + "fixed.sqlite3" == name
  {
    if EndsWith(name, UploadSuffix) then
      if EndsWith(name, FixedSuffix) then Some(name[..|name| - 13])
      else Some(name[..|name| - 8])
    else None
  }

  /** `is_file_protected` as written. */
  predicate IsFileProtectedAsWritten(active: set<string>, name: string) {
    var id := SessionIdOfAsWritten(name);
    id.Some? && id.value in active
  }

  /** The session id encoded in a file name, removing the whole "_fixed.sqlite3" suffix. */
  function SessionIdOf(name: string): (r: Option<string>)
    ensures r.None? <==> !EndsWith(name, UploadSuffix)
    ensures r.Some? ==> r.value + FixedSuffix == name || r.value + UploadSuffix == name
  {
    if EndsWith(name, UploadSuffix) then
      if EndsWith(name, FixedSuffix) then Some(name[..|name| - 14])
      else Some(name[..|name| - 8])
    else None
  }

  /** A file is protected when its name encodes an active session id. */
  predicate IsFileProtected(active: set<string>, name: string) {
    var id := SessionIdOf(name);
    id.Some? && id.value in active
  }

  /** Both file names the API server writes for a session parse back to that session's id. */
  lemma SessionIdOfServerFiles(sid: string)
    requires !EndsWith(sid, "_fixed")
    ensures SessionIdOf(Sessions.UploadName(sid)) == Some(sid)
    ensures SessionIdOf(Sessions.FixedName(sid)) == Some(sid)
  {
    var u := Sessions.UploadName(sid);
    var f := Sessions.FixedName(sid);
    assert u[|u| - 8..] == UploadSuffix;
    assert u[..|u| - 8] == sid;
    assert f[|f| - 14..] == FixedSuffix;
    assert f[|f| - 8..] == UploadSuffix;
    assert f[..|f| - 14] == sid;
  }

  /** An active session's files are protected from the sweep. */
  lemma ActiveSessionFilesProtected(active: set<string>, sid: string)
    requires sid in active && !EndsWith(sid, "_fixed")
    ensures IsFileProtected(active, Sessions.UploadName(sid))
    ensures IsFileProtected(active, Sessions.FixedName(sid))
  {
    SessionIdOfServerFiles(sid);
  }

  /**
   * As written, the processed file of an active session is tested under the id "abc_",
   * which is not active, so it is not protected; the corrected parsing protects it.
   */
  lemma FixedFileUnprotectedAsWritten()
    ensures SessionIdOfAsWritten("abc_fixed.sqlite3") == Some("abc_")
    ensures !IsFileProtectedAsWritten({"abc"}, "abc_fixed.sqlite3")
    ensures IsFileProtected({"abc"}, "abc_fixed.sqlite3")
  {
    var name := "abc_fixed.sqlite3";
    assert EndsWith(name, UploadSuffix) && EndsWith(name, FixedSuffix);
    assert name[..|name| - 13] == "abc_";
    assert name[..|name| - 14] == "abc";
    assert "abc_" != "abc";
  }

  /** An active session's upload file is protected as written too. */
  lemma ActiveUploadProtectedAsWritten(active: set<string>, sid: string)
    requires sid in active && !EndsWith(sid, "_fixed")
    ensures IsFileProtectedAsWritten(active, Sessions.UploadName(sid))
  {
  }

  /**
   * The sweep deletes a regular file strictly older than the maximum age unless its name
   * is protected, with the session id parsed as written.
   */
  predicate Doomed(active: set<string>, maxAge: int, now: int, name: string, e: Entry) {
    e.isFile && !IsFileProtectedAsWritten(active, name) && now - e.mtime > maxAge
  }

  /**
   * So an old processed file of the active session "abc" is swept; under the corrected
   * parsing it would be kept.
   */
  lemma ActiveFixedFileSweptAsWritten(maxAge: int, now: int, e: Entry)
    requires e.isFile && now - e.mtime > maxAge
    ensures Doomed({"abc"}, maxAge, now, "abc_fixed.sqlite3", e)
    ensures IsFileProtected({"abc"}, "abc_fixed.sqlite3")
  {
    FixedFileUnprotectedAsWritten();
  }

  /** The files the sweep removes: the doomed ones whose removal does not fail. */
  function Removed(active: set<string>, maxAge: int, now: int, entries: map<string, Entry>,
                   undeletable: set<string>): set<string>
  {
    set n | n in entries && n !in undeletable && Doomed(active, maxAge, now, n, entries[n])
  }

  class CleanupService {
    var activeSessions: set<string>
    var running: bool
    /** `file_max_age` in seconds. */
    var fileMaxAge: int
    /** `cleanup_interval` in seconds. */
    var cleanupInterval: int

    /** `__init__` with the default interval of 10 minutes and maximum age of 60 minutes. */
    constructor ()
      ensures activeSessions == {} && !running
      ensures fileMaxAge == 60 * 60 && cleanupInterval == 10 * 60
    {
      activeSessions := {};
      running := false;
      fileMaxAge := 60 * 60;
      cleanupInterval := 10 * 60;
    }

    /** `add_active_session` */
    method AddActiveSession(sid: string)
      modifies this`activeSessions
      ensures activeSessions == old(activeSessions) + {sid}
    {
      activeSessions := activeSessions + {sid};
    }

    /** `remove_active_session`: a discard, so removing an absent id changes nothing. */
    method RemoveActiveSession(sid: string)
      modifies this`activeSessions
      ensures activeSessions == old(activeSessions) - {sid}
      ensures sid !in old(activeSessions) ==> activeSessions == old(activeSessions)
    {
      activeSessions := activeSessions - {sid};
    }

    /**
     * `is_file_protected`: the session id is the name without its last 13 characters for a
     * "_fixed.sqlite3" name, and without its last 8 for another ".sqlite3" name.
     */
    method IsProtected(name: string) returns (p: bool)
      ensures p <==> IsFileProtectedAsWritten(activeSessions, name)
      ensures !EndsWith(name, UploadSuffix) ==> !p
      ensures EndsWith(name, FixedSuffix) ==> (p <==> name[..|name| - 13] in activeSessions)
      ensures EndsWith(name, UploadSuffix) && !EndsWith(name, FixedSuffix) ==>
                (p <==> name[..|name| - 8] in activeSessions)
    {
      p := false;
      if EndsWith(name, UploadSuffix) {
        var sid: string;
        if EndsWith(name, FixedSuffix) {
          sid := name[..|name| - 13];
        } else {
          sid := name[..|name| - 8];
        }
        p := sid in activeSessions;
      }
    }

    /**
     * `cleanup_directory`: a missing folder gives 0. Otherwise each regular file that is not
     * protected and whose age is strictly greater than the maximum is unlinked; a failing
     * unlink (a name in `undeletable`) is skipped. Returns the new listing and the count.
     */
    method CleanupDirectory(dir: Directory, now: int, undeletable: set<string>)
      returns (after: Directory, deleted: nat)
      ensures dir.Missing? ==> after == Missing && deleted == 0
      ensures dir.Listing? ==>
                && after == Listing(dir.entries - Removed(activeSessions, fileMaxAge, now, dir.entries, undeletable))
                && deleted == |Removed(activeSessions, fileMaxAge, now, dir.entries, undeletable)|
      ensures dir.Listing? ==> forall n :: n in dir.entries && !Doomed(activeSessions, fileMaxAge, now, n, dir.entries[n]) ==>
                n in after.entries && after.entries[n] == dir.entries[n]
    {
      if dir.Missing? {
        return Missing, 0;
      }
      var entries := dir.entries;
      ghost var gone := Removed(activeSessions, fileMaxAge, now, entries, undeletable);
      var kept := entries;
      ghost var removed: set<string> := {};
      deleted := 0;
      var todo := entries.Keys;
      while todo != {}
        invariant todo <= entries.Keys
        invariant removed == set n | n in entries.Keys - todo && n in gone
        invariant kept == entries - removed
        invariant deleted == |removed|
        decreases |todo|
      {
        var n :| n in todo;
        var p := IsProtected(n);
        var e := entries[n];
        if e.isFile && !p && now - e.mtime > fileMaxAge && n !in undeletable {
          assert n in gone && n !in removed;
          kept := kept - {n};
          removed := removed + {n};
          deleted := deleted + 1;
        } else {
          assert n !in gone;
        }
        todo := todo - {n};
      }
      assert removed == gone;
      after := Listing(kept);
    }

    /**
     * `run_cleanup_cycle`: sweeps the upload and the processed folder, then adds the count
     * of orphaned cover files removed by the cover store (passed in, 0 when unavailable).
     * The source returns nothing; `total` is the `total_deleted` it logs.
     */
    method RunCleanupCycle(uploads: Directory, processed: Directory, now: int, undeletable: set<string>, coverDeleted: nat)
      returns (uploadsAfter: Directory, processedAfter: Directory, total: nat)
      ensures uploads.Missing? ==> uploadsAfter == Missing
      ensures processed.Missing? ==> processedAfter == Missing
      ensures total == coverDeleted
                       + (if uploads.Listing? then |Removed(activeSessions, fileMaxAge, now, uploads.entries, undeletable)| else 0)
                       + (if processed.Listing? then |Removed(activeSessions, fileMaxAge, now, processed.entries, undeletable)| else 0)
    {
      var u, p: nat;
      uploadsAfter, u := CleanupDirectory(uploads, now, undeletable);
      processedAfter, p := CleanupDirectory(processed, now, undeletable);
      total := u + p + coverDeleted;
    }

    /** `start`: does nothing if already running; otherwise the flag is set for the loop. */
    method Start() returns (started: bool)
      modifies this`running
      ensures started <==> !old(running)
      ensures running
    {
      if running {
        return false;
      }
      running := true;
      started := true;
    }

    /** `stop`: clears the flag; a stopped service stays stopped. */
    method Stop()
      modifies this`running
      ensures !running
    {
      if !running {
        return;
      }
      running := false;
    }
  }
}
