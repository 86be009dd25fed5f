/**
 * The FastAPI back end's in-memory session registry: uploads, per-session merge-group
 * lists, the merge run on a fresh copy of the upload, result and download guards, and
 * the two clocks (a rolling `expires_at` and a fixed file-cleanup deadline).
 * Time is whole seconds, passed in as `now`; the upload and processed folders are maps
 * from file name to content and modification time.
 */
module Sessions {
  import opened Wrappers
  import opened Text
  import opened StatsDb

  /** SESSION_TIMEOUT: two hours of inactivity. */
  const SessionTimeout: int := 7200
  /** CLEANUP_AGE: files are deleted two hours after they were written. */
  const CleanupAge: int := 7200

  /** One merge group: the book to keep and the books to merge into it. */
  datatype Group = Group(keepId: int, mergeIds: seq<int>)

  datatype Session = Session(
    uploadDb: string,
    mergeGroups: seq<Group>,
    createdAt: int,
    lastAccessed: int,
    expiresAt: int,
    fixedDb: Option<string>)

  datatype StoredFile = StoredFile(content: DbFile, mtime: int)

  /** The HTTPException raised by a handler; `StatusCode` gives its status. */
  datatype ApiError =
    | SessionNotFound
    | NotSqliteFile
    | InvalidDatabase(reason: DbError)
    | UploadFailed
    | DatabaseFileNotFound
    | FetchFailed
    | MissingGroupFields
    | NoDifferentBook
    | NoGroupsToRemove
    | NoGroupsToExecute
    | MergeFailed
    | NoMergedDatabase
    | MergedFileNotFound
    | SessionExpired
    | SessionFilesGone

  function StatusCode(e: ApiError): (code: int)
    ensures code in {400, 404, 410, 500}
    ensures code == 410 <==> e == SessionExpired || e == SessionFilesGone
  {
    match e
    case SessionNotFound => 404
    case NotSqliteFile => 400
    case InvalidDatabase(_) => 400
    case UploadFailed => 500
    case DatabaseFileNotFound => 404
    case FetchFailed => 500
    case MissingGroupFields => 400
    case NoDifferentBook => 400
    case NoGroupsToRemove => 400
    case NoGroupsToExecute => 400
    case MergeFailed => 500
    case NoMergedDatabase => 404
    case MergedFileNotFound => 404
    case SessionExpired => 410
    case SessionFilesGone => 410
  }

  function UploadName(sid: string): string {
    sid + ".sqlite3"
  }

  function FixedName(sid: string): string {
    sid + "_fixed.sqlite3"
  }

  // ---------------------------------------------------------------------------
  // Pure pieces of the handlers

  /**
   * `[mid for mid in ids if mid != k]`. Every other id keeps its number of occurrences
   * (`WithoutCounts`) and its order (`WithoutAppend`).
   */
  function Without(ids: seq<int>, k: int): (r: seq<int>)
    ensures forall x :: x in r <==> x in ids && x != k
    ensures |r| <= |ids|
    ensures k !in ids ==> r == ids
  {
    if ids == [] then []
    else (if ids[0] == k then [] else [ids[0]]) + Without(ids[1..], k)
  }

  /** The filter drops every `k` and keeps each other id as often as it occurs. */
  lemma {:induction false} WithoutCounts(ids: seq<int>, k: int)
    ensures multiset(Without(ids, k)) == multiset(ids)[k := 0]
    decreases |ids|
  {
    if ids != [] {
      assert ids == [ids[0]] + ids[1..];
      WithoutCounts(ids[1..], k);
    }
  }

  /** The filter works element by element from the left, so it keeps the order of `ids`. */
  lemma {:induction false} WithoutAppend(a: seq<int>, b: seq<int>, k: int)
    ensures Without(a + b, k) == Without(a, k) + Without(b, k)
    decreases |a|
  {
    if a == [] {
      assert a + b == b;
    } else {
      var head := if a[0] == k then [] else [a[0]];
      assert (a + b)[0] == a[0];
      assert (a + b)[1..] == a[1..] + b;
      WithoutAppend(a[1..], b, k);
      calc {
        Without(a + b, k);
        head + Without(a[1..] + b, k);
        head + (Without(a[1..], k) + Without(b, k));
        (head + Without(a[1..], k)) + Without(b, k);
      }
    }
  }

  /**
   * The checks of `add_merge_group`: a falsy (missing or zero) `keep_id` or an empty
   * `merge_ids` is refused, `keep_id` is dropped from `merge_ids`, and nothing left is refused.
   */
  function NewGroup(keepId: Option<int>, mergeIds: seq<int>): (r: Result<Group, ApiError>)
    ensures r.Ok? <==> keepId.Some? && keepId.value != 0 && exists x :: x in mergeIds && x != keepId.value
    ensures r == Err(MissingGroupFields) <==> keepId.None? || keepId.value == 0 || mergeIds == []
    ensures r.Ok? ==> r.value.keepId == keepId.value && r.value.keepId !in r.value.mergeIds &&
                      (forall x :: x in r.value.mergeIds <==> x in mergeIds && x != keepId.value)
    ensures r.Ok? ==> r.value.mergeIds == Without(mergeIds, keepId.value) &&
                      multiset(r.value.mergeIds) == multiset(mergeIds)[keepId.value := 0]
  {
    if keepId.None? || keepId.value == 0 || mergeIds == [] then Err(MissingGroupFields)
    else
      var rest := Without(mergeIds, keepId.value);
      if rest == [] then
        assert forall x :: x in mergeIds ==> x == keepId.value;
        Err(NoDifferentBook)
      else
        assert rest[0] in mergeIds;
        WithoutCounts(mergeIds, keepId.value);
        Ok(Group(keepId.value, rest))
  }

  /** Python's `int(seconds / 60)`: the quotient truncated toward zero. */
  function Minutes(seconds: int): (m: int)
    ensures seconds >= 0 ==> 0 <= m && m * 60 <= seconds < m * 60 + 60
    ensures seconds < 0 ==> m <= 0 && m * 60 - 60 < seconds <= m * 60
  {
    if seconds >= 0 then seconds / 60 else -((-seconds) / 60)
  }

  /** `max(0, int(remaining / 60))` for the fixed file-cleanup deadline `created_at + CLEANUP_AGE`. */
  function FileCleanupMinutes(createdAt: int, now: int): (m: int)
    ensures m >= 0
    ensures now < createdAt + CleanupAge ==> m * 60 <= createdAt + CleanupAge - now < m * 60 + 60
    ensures now >= createdAt + CleanupAge ==> m == 0
  {
    var x := Minutes(createdAt + CleanupAge - now);
    if x < 0 then 0 else x
  }

  /** The database after applying the merge groups in list order, or None if a merge fails. */
  ghost function ApplyGroups(f: DbFile, groups: seq<Group>): Option<DbFile>
    decreases |groups|
  {
    if groups == [] then Some(f)
    else
      match ApplyGroups(f, groups[..|groups| - 1])
      case None => None
      case Some(g) =>
        var last := groups[|groups| - 1];
        if MergeCommits(g, last.mergeIds, None) then Some(g.(db := MergeResult(g.db, last.keepId, last.mergeIds)))
        else None
  }

  /** Whether an injected failure `(group, statement)` hits a statement that actually runs. */
  predicate FaultHits(failAt: Option<(nat, nat)>, groups: seq<Group>) {
    failAt.Some? && failAt.value.0 < |groups| && failAt.value.1 <= 2 * |groups[failAt.value.0].mergeIds| + 1
  }

  /** Merging never changes a file's schema, so whether a later merge commits is decided by the upload. */
  lemma {:induction false} ApplyGroupsSchema(f: DbFile, groups: seq<Group>)
    requires ApplyGroups(f, groups).Some?
    ensures var g := ApplyGroups(f, groups).value;
            g.Sqlite? == f.Sqlite? && (g.Sqlite? ==> g.tables == f.tables && g.bookColumns == f.bookColumns)
    decreases |groups|
  {
    if groups != [] {
      ApplyGroupsSchema(f, groups[..|groups| - 1]);
    }
  }

  /**
   * Applying groups succeeds exactly when there are none or the upload has the schema a
   * merge needs.
   */
  lemma {:induction false} ApplyGroupsSucceeds(f: DbFile, groups: seq<Group>)
    ensures ApplyGroups(f, groups).Some? <==>
              groups == [] || (f.Sqlite? && RequiredTables <= f.tables && TotalsColumns <= f.bookColumns)
    decreases |groups|
  {
    if groups != [] {
      var init := groups[..|groups| - 1];
      ApplyGroupsSucceeds(f, init);
      if ApplyGroups(f, init).Some? {
        ApplyGroupsSchema(f, init);
      }
    }
  }

  /**
   * The loop of `execute_merge` (and of the Flask `run_all` action): `merge_books` for each
   * group in list order on the copy, stopping at the first failure. `failAt` injects a
   * failure at statement `failAt.1` of group `failAt.0`. Returns the copy as left behind and
   * how many groups committed; all of them did exactly when no fault hits and every merge
   * can run.
   */
  method RunGroups(src: DbFile, groups: seq<Group>, failAt: Option<(nat, nat)>) returns (cur: DbFile, done: nat)
    ensures done <= |groups| && ApplyGroups(src, groups[..done]) == Some(cur)
    ensures done == |groups| <==> !FaultHits(failAt, groups) && ApplyGroups(src, groups).Some?
  {
    cur := src;
    done := 0;
    while done < |groups|
      invariant 0 <= done <= |groups|
      invariant ApplyGroups(src, groups[..done]) == Some(cur)
      invariant failAt.None? || failAt.value.0 >= done || failAt.value.1 > 2 * |groups[failAt.value.0].mergeIds| + 1
    {
      var g := groups[done];
      var fault := if failAt.Some? && failAt.value.0 == done then Some(failAt.value.1) else None;
      var m := MergeBooks(cur, g.keepId, g.mergeIds, fault);
      assert groups[..done + 1][..done] == groups[..done];
      if m.Err? {
        if !FaultHits(failAt, groups) {
          ApplyGroupsSucceeds(src, groups[..done + 1]);
          ApplyGroupsSucceeds(src, groups);
        }
        return;
      }
      cur := m.value;
      done := done + 1;
    }
    assert groups[..|groups|] == groups;
  }

  /** The first loop of `cleanup_expired_sessions`: collects the ids with `now > expires_at`. */
  method CollectExpired(ss: map<string, Session>, now: int) returns (expired: set<string>)
    ensures expired == ExpiredIds(ss, now)
  {
    expired := {};
    var scan := ss.Keys;
    while scan != {}
      invariant scan <= ss.Keys
      invariant expired == set sid | sid in ss && sid !in scan && now > ss[sid].expiresAt
      decreases |scan|
    {
      var sid :| sid in scan;
      if now > ss[sid].expiresAt {
        expired := expired + {sid};
      }
      scan := scan - {sid};
    }
  }

  /** What `get_session_info` reports. */
  datatype SessionInfo = SessionInfo(
    createdAt: int,
    lastAccessed: int,
    expiresAt: int,
    isExpired: bool,
    sessionRemainingMinutes: int,
    fileCleanupRemainingMinutes: int,
    uploadDb: string,
    uploadFileExists: bool,
    fixedDb: Option<string>,
    processedFileExists: bool,
    mergeGroupsCount: nat,
    mergeGroups: seq<Group>)

  /** What `validate_session` reports for a live session. */
  datatype Validation = Validation(expiresAt: int, sessionRemainingMinutes: int, fileCleanupRemainingMinutes: int)

  /** The sessions a sweep at `now` removes. */
  function ExpiredIds(ss: map<string, Session>, now: int): set<string> {
    set sid | sid in ss && now > ss[sid].expiresAt
  }

  function UploadsOf(ss: map<string, Session>, ids: set<string>): set<string> {
    set sid | sid in ids && sid in ss :: ss[sid].uploadDb
  }

  function FixedOf(ss: map<string, Session>, ids: set<string>): set<string> {
    set sid | sid in ids && sid in ss && ss[sid].fixedDb.Some? :: ss[sid].fixedDb.value
  }

  lemma MapMinusStep<V>(m: map<string, V>, d: set<string>, x: string)
    ensures (m - d) - {x} == m - (d + {x})
  {
  }

  lemma UploadsStep(u: map<string, StoredFile>, ss: map<string, Session>, done: set<string>, sid: string,
                    u0: map<string, StoredFile>, u1: map<string, StoredFile>)
    requires sid in ss && u0 == u - UploadsOf(ss, done) && u1 == u0 - {ss[sid].uploadDb}
    ensures u1 == u - UploadsOf(ss, done + {sid})
  {
    assert UploadsOf(ss, done + {sid}) == UploadsOf(ss, done) + {ss[sid].uploadDb};
  }

  lemma FixedStep(p: map<string, StoredFile>, ss: map<string, Session>, done: set<string>, sid: string,
                  p0: map<string, StoredFile>, p1: map<string, StoredFile>)
    requires sid in ss && p0 == p - FixedOf(ss, done)
    requires p1 == p0 - (if ss[sid].fixedDb.Some? then {ss[sid].fixedDb.value} else {})
    ensures p1 == p - FixedOf(ss, done + {sid})
  {
    assert FixedOf(ss, done + {sid}) ==
           FixedOf(ss, done) + (if ss[sid].fixedDb.Some? then {ss[sid].fixedDb.value} else {});
  }

  /** The files of a folder that `cleanup_old_files` keeps: those not older than `maxAge`. */
  function Recent(files: map<string, StoredFile>, now: int, maxAge: int): map<string, StoredFile> {
    map n | n in files && !(now - files[n].mtime > maxAge) :: files[n]
  }

  /** `cleanup_old_files` on one folder: deletes every file whose age exceeds `maxAge`. */
  method SweepFolder(files: map<string, StoredFile>, now: int, maxAge: int) returns (kept: map<string, StoredFile>)
    ensures kept.Keys <= files.Keys
    ensures forall n :: n in files ==> (n in kept <==> now - files[n].mtime <= maxAge)
    ensures forall n :: n in kept ==> kept[n] == files[n]
  {
    kept := files;
    var todo := files.Keys;
    while todo != {}
      invariant todo <= files.Keys && kept.Keys <= files.Keys
      invariant forall n :: n in files && n !in todo ==> (n in kept <==> now - files[n].mtime <= maxAge)
      invariant forall n :: n in todo ==> n in kept
      invariant forall n :: n in kept ==> kept[n] == files[n]
      decreases |todo|
    {
      var n :| n in todo;
      if now - files[n].mtime > maxAge {
        kept := kept - {n};
      }
      todo := todo - {n};
    }
  }

  // ---------------------------------------------------------------------------
  // The registry

  /** Session `sid` names its own files and its expiry is one timeout after its last access. */
  predicate WellFormed(sid: string, s: Session) {
    && s.uploadDb == UploadName(sid)
    && s.expiresAt == s.lastAccessed + SessionTimeout
    && (s.fixedDb.None? || s.fixedDb == Some(FixedName(sid)))
  }

  class Server {
    var sessions: map<string, Session>
    var uploads: map<string, StoredFile>
    var processed: map<string, StoredFile>
    /** The download counter kept by the database service. */
    var downloads: nat

    ghost predicate Valid()
      reads this
    {
      forall sid :: sid in sessions ==> WellFormed(sid, sessions[sid])
    }

    constructor ()
      ensures Valid()
      ensures sessions == map[] && uploads == map[] && processed == map[] && downloads == 0
    {
      sessions := map[];
      uploads := map[];
      processed := map[];
      downloads := 0;
    }

    /**
     * `upload_file`: a name not ending in ".sqlite3" is refused; otherwise the content is
     * written to `{sid}.sqlite3` and validated. A schema error removes the file (400), a file
     * that is not a database removes it too (500), and a valid one opens a session with
     * no groups whose two clocks start at `now`.
     */
    method Upload(filename: string, sid: string, content: DbFile, now: int) returns (r: Result<string, ApiError>)
      requires Valid()
      modifies this
      ensures Valid()
      ensures processed == old(processed) && downloads == old(downloads)
      ensures !EndsWith(filename, ".sqlite3") ==>
                r == Err(NotSqliteFile) && sessions == old(sessions) && uploads == old(uploads)
      ensures EndsWith(filename, ".sqlite3") && ValidateDb(content).None? ==>
                && r == Ok(sid)
                && uploads == old(uploads)[UploadName(sid) := StoredFile(content, now)]
                && sessions == old(sessions)[sid := Session(UploadName(sid), [], now, now, now + SessionTimeout, None)]
      ensures EndsWith(filename, ".sqlite3") && ValidateDb(content).Some? ==>
                && r == (if ValidateDb(content) == Some(NotADatabase) then Err(UploadFailed)
                         else Err(InvalidDatabase(ValidateDb(content).value)))
                && uploads == old(uploads) - {UploadName(sid)}
                && sessions == old(sessions)
    {
      if !EndsWith(filename, ".sqlite3") {
        return Err(NotSqliteFile);
      }
      var name := UploadName(sid);
      uploads := uploads[name := StoredFile(content, now)];
      var problem := ValidateDb(content);
      if problem.Some? {
        uploads := uploads - {name};
        if problem == Some(NotADatabase) {
          return Err(UploadFailed);
        }
        return Err(InvalidDatabase(problem.value));
      }
      sessions := sessions[sid := Session(name, [], now, now, now + SessionTimeout, None)];
      return Ok(sid);
    }

    /** `get_books`: the listing of the uploaded database and the session's groups. */
    method GetBooks(sid: string) returns (r: Result<(seq<BookRow>, seq<Group>), ApiError>)
      ensures sid !in sessions ==> r == Err(SessionNotFound)
      ensures sid in sessions && sessions[sid].uploadDb !in uploads ==> r == Err(DatabaseFileNotFound)
      ensures sid in sessions && sessions[sid].uploadDb in uploads ==>
                var f := uploads[sessions[sid].uploadDb].content;
                && (r.Ok? <==> Listable(f))
                && (r.Err? ==> r == Err(FetchFailed))
                && (r.Ok? ==> IsListing(r.value.0, f) && r.value.1 == sessions[sid].mergeGroups)
    {
      if sid !in sessions {
        return Err(SessionNotFound);
      }
      var s := sessions[sid];
      if s.uploadDb !in uploads {
        return Err(DatabaseFileNotFound);
      }
      var rows := FetchBooks(uploads[s.uploadDb].content);
      if rows.None? {
        return Err(FetchFailed);
      }
      return Ok((rows.value, s.mergeGroups));
    }

    /** `add_merge_group`: appends exactly one group at the end of the list, or changes nothing. */
    method AddMergeGroup(sid: string, keepId: Option<int>, mergeIds: seq<int>) returns (r: Result<Group, ApiError>)
      requires Valid()
      modifies this
      ensures Valid()
      ensures uploads == old(uploads) && processed == old(processed) && downloads == old(downloads)
      ensures sid !in old(sessions) ==> r == Err(SessionNotFound)
      ensures sid in old(sessions) ==> r == NewGroup(keepId, mergeIds)
      ensures r.Ok? ==> sessions == old(sessions)[sid := old(sessions)[sid].(mergeGroups := old(sessions)[sid].mergeGroups + [r.value])]
      ensures r.Err? ==> sessions == old(sessions)
    {
      if sid !in sessions {
        return Err(SessionNotFound);
      }
      r := NewGroup(keepId, mergeIds);
      if r.Ok? {
        var s := sessions[sid];
        sessions := sessions[sid := s.(mergeGroups := s.mergeGroups + [r.value])];
      }
    }

    /** `remove_last_merge_group`: pops the most recent group, or refuses an empty list. */
    method RemoveLastMergeGroup(sid: string) returns (r: Result<Group, ApiError>)
      requires Valid()
      modifies this
      ensures Valid()
      ensures uploads == old(uploads) && processed == old(processed) && downloads == old(downloads)
      ensures sid !in old(sessions) ==> r == Err(SessionNotFound) && sessions == old(sessions)
      ensures sid in old(sessions) && old(sessions)[sid].mergeGroups == [] ==>
                r == Err(NoGroupsToRemove) && sessions == old(sessions)
      ensures sid in old(sessions) && old(sessions)[sid].mergeGroups != [] ==>
                var gs := old(sessions)[sid].mergeGroups;
                r == Ok(gs[|gs| - 1]) &&
                sessions == old(sessions)[sid := old(sessions)[sid].(mergeGroups := gs[..|gs| - 1])]
    {
      if sid !in sessions {
        return Err(SessionNotFound);
      }
      var s := sessions[sid];
      if s.mergeGroups == [] {
        return Err(NoGroupsToRemove);
      }
      var gs := s.mergeGroups;
      sessions := sessions[sid := s.(mergeGroups := gs[..|gs| - 1])];
      return Ok(gs[|gs| - 1]);
    }

    /** `clear_merge_groups`: the list is left empty. */
    method ClearMergeGroups(sid: string) returns (r: Result<(), ApiError>)
      requires Valid()
      modifies this
      ensures Valid()
      ensures uploads == old(uploads) && processed == old(processed) && downloads == old(downloads)
      ensures sid !in old(sessions) ==> r == Err(SessionNotFound) && sessions == old(sessions)
      ensures sid in old(sessions) ==>
                r == Ok(()) && sessions == old(sessions)[sid := old(sessions)[sid].(mergeGroups := [])]
    {
      if sid !in sessions {
        return Err(SessionNotFound);
      }
      sessions := sessions[sid := sessions[sid].(mergeGroups := [])];
      return Ok(());
    }

    /**
     * `execute_merge`: copies the upload afresh to `{sid}_fixed.sqlite3` and applies the
     * groups in list order, each in its own transaction. On success the session records the
     * file; on any failure (no upload to copy, a merge that raises) the processed file is
     * deleted and the session is left as it was. Since every run starts from the upload,
     * a rerun with the same groups writes the same content.
     */
    method ExecuteMerge(sid: string, failAt: Option<(nat, nat)>, now: int) returns (r: Result<string, ApiError>)
      requires Valid()
      modifies this
      ensures Valid()
      ensures uploads == old(uploads) && downloads == old(downloads)
      ensures sid !in old(sessions) ==> r == Err(SessionNotFound) && sessions == old(sessions) && processed == old(processed)
      ensures sid in old(sessions) && old(sessions)[sid].mergeGroups == [] ==>
                r == Err(NoGroupsToExecute) && sessions == old(sessions) && processed == old(processed)
      ensures sid in old(sessions) && old(sessions)[sid].mergeGroups != [] ==>
                var s := old(sessions)[sid];
                && (r.Ok? <==> s.uploadDb in uploads && !FaultHits(failAt, s.mergeGroups) &&
                                ApplyGroups(uploads[s.uploadDb].content, s.mergeGroups).Some?)
                && (r.Ok? ==>
                      && r.value == FixedName(sid)
                      && sessions == old(sessions)[sid := s.(fixedDb := Some(FixedName(sid)))]
                      && processed == old(processed)[FixedName(sid) :=
                           StoredFile(ApplyGroups(uploads[s.uploadDb].content, s.mergeGroups).value, now)])
                && (r.Err? ==>
                      r == Err(MergeFailed) && sessions == old(sessions) &&
                      processed == old(processed) - {FixedName(sid)})
    {
      if sid !in sessions {
        return Err(SessionNotFound);
      }
      var s := sessions[sid];
      var groups := s.mergeGroups;
      if groups == [] {
        return Err(NoGroupsToExecute);
      }
      var dst := FixedName(sid);
      if s.uploadDb !in uploads {
        processed := processed - {dst};
        return Err(MergeFailed);
      }
      var fixed, done := RunGroups(uploads[s.uploadDb].content, groups, failAt);
      if done < |groups| {
        processed := processed - {dst};
        return Err(MergeFailed);
      }
      assert groups[..done] == groups;
      processed := processed[dst := StoredFile(fixed, now)];
      sessions := sessions[sid := s.(fixedDb := Some(dst))];
      return Ok(dst);
    }

    /** `get_result`: the listing of the merged database. */
    method GetResult(sid: string) returns (r: Result<seq<BookRow>, ApiError>)
      ensures sid !in sessions ==> r == Err(SessionNotFound)
      ensures sid in sessions && sessions[sid].fixedDb.None? ==> r == Err(NoMergedDatabase)
      ensures sid in sessions && sessions[sid].fixedDb.Some? && sessions[sid].fixedDb.value !in processed ==>
                r == Err(MergedFileNotFound)
      ensures sid in sessions && sessions[sid].fixedDb.Some? && sessions[sid].fixedDb.value in processed ==>
                var f := processed[sessions[sid].fixedDb.value].content;
                (r.Ok? <==> Listable(f)) && (r.Err? ==> r == Err(FetchFailed)) && (r.Ok? ==> IsListing(r.value, f))
    {
      if sid !in sessions {
        return Err(SessionNotFound);
      }
      var fixed := sessions[sid].fixedDb;
      if fixed.None? {
        return Err(NoMergedDatabase);
      }
      if fixed.value !in processed {
        return Err(MergedFileNotFound);
      }
      var rows := FetchBooks(processed[fixed.value].content);
      if rows.None? {
        return Err(FetchFailed);
      }
      return Ok(rows.value);
    }

    /** `download_file`: the merged file, counting the download only when it is served. */
    method Download(sid: string) returns (r: Result<DbFile, ApiError>)
      modifies this`downloads
      ensures sid !in sessions ==> r == Err(SessionNotFound)
      ensures sid in sessions && sessions[sid].fixedDb.None? ==> r == Err(NoMergedDatabase)
      ensures sid in sessions && sessions[sid].fixedDb.Some? && sessions[sid].fixedDb.value !in processed ==>
                r == Err(MergedFileNotFound)
      ensures sid in sessions && sessions[sid].fixedDb.Some? && sessions[sid].fixedDb.value in processed ==>
                r == Ok(processed[sessions[sid].fixedDb.value].content)
      ensures downloads == if r.Ok? then old(downloads) + 1 else old(downloads)
    {
      if sid !in sessions {
        return Err(SessionNotFound);
      }
      var fixed := sessions[sid].fixedDb;
      if fixed.None? {
        return Err(NoMergedDatabase);
      }
      if fixed.value !in processed {
        return Err(MergedFileNotFound);
      }
      downloads := downloads + 1;
      return Ok(processed[fixed.value].content);
    }

    /** `cleanup_session`: removes the session's upload, its merged file if any, and the session. */
    method CleanupSession(sid: string) returns (r: Result<(), ApiError>)
      requires Valid()
      modifies this
      ensures Valid()
      ensures downloads == old(downloads)
      ensures sid !in old(sessions) ==>
                r == Err(SessionNotFound) && sessions == old(sessions) &&
                uploads == old(uploads) && processed == old(processed)
      ensures sid in old(sessions) ==>
                && r == Ok(())
                && sessions == old(sessions) - {sid}
                && uploads == old(uploads) - {old(sessions)[sid].uploadDb}
                && processed == old(processed) - (if old(sessions)[sid].fixedDb.Some? then {old(sessions)[sid].fixedDb.value} else {})
    {
      if sid !in sessions {
        return Err(SessionNotFound);
      }
      var s := sessions[sid];
      uploads := uploads - {s.uploadDb};
      if s.fixedDb.Some? {
        processed := processed - {s.fixedDb.value};
      }
      sessions := sessions - {sid};
      return Ok(());
    }

    /**
     * `validate_session`: an expired session (`now > expires_at`) is cleaned up (410); one
     * whose upload is gone is dropped without touching files (410); otherwise the rolling
     * expiry moves to `now + SESSION_TIMEOUT` and `created_at` stays.
     */
    method ValidateSession(sid: string, now: int) returns (r: Result<Validation, ApiError>)
      requires Valid()
      modifies this
      ensures Valid()
      ensures downloads == old(downloads)
      ensures sid !in old(sessions) ==>
                r == Err(SessionNotFound) && sessions == old(sessions) &&
                uploads == old(uploads) && processed == old(processed)
      ensures sid in old(sessions) && now > old(sessions)[sid].expiresAt ==>
                && r == Err(SessionExpired)
                && sessions == old(sessions) - {sid}
                && uploads == old(uploads) - {old(sessions)[sid].uploadDb}
                && processed == old(processed) - (if old(sessions)[sid].fixedDb.Some? then {old(sessions)[sid].fixedDb.value} else {})
      ensures sid in old(sessions) && now <= old(sessions)[sid].expiresAt && old(sessions)[sid].uploadDb !in old(uploads) ==>
                && r == Err(SessionFilesGone)
                && sessions == old(sessions) - {sid}
                && uploads == old(uploads) && processed == old(processed)
      ensures sid in old(sessions) && now <= old(sessions)[sid].expiresAt && old(sessions)[sid].uploadDb in old(uploads) ==>
                var s := old(sessions)[sid];
                && sessions == old(sessions)[sid := s.(lastAccessed := now, expiresAt := now + SessionTimeout)]
                && uploads == old(uploads) && processed == old(processed)
                && r == Ok(Validation(now + SessionTimeout, SessionTimeout / 60, FileCleanupMinutes(s.createdAt, now)))
    {
      if sid !in sessions {
        return Err(SessionNotFound);
      }
      var s := sessions[sid];
      if now > s.expiresAt {
        var _ := CleanupSession(sid);
        return Err(SessionExpired);
      }
      if s.uploadDb !in uploads {
        sessions := sessions - {sid};
        return Err(SessionFilesGone);
      }
      var s' := s.(lastAccessed := now, expiresAt := now + SessionTimeout);
      sessions := sessions[sid := s'];
      return Ok(Validation(s'.expiresAt, Minutes(s'.expiresAt - now), FileCleanupMinutes(s'.createdAt, now)));
    }

    /** `get_session_info`: reads the session without extending it. */
    method GetSessionInfo(sid: string, now: int) returns (r: Result<SessionInfo, ApiError>)
      ensures sid !in sessions ==> r == Err(SessionNotFound)
      ensures sid in sessions ==> r.Ok?
      ensures r.Ok? ==>
                var s := sessions[sid];
                var info := r.value;
                && info.isExpired == (now > s.expiresAt)
                && info.expiresAt == s.expiresAt && info.createdAt == s.createdAt && info.lastAccessed == s.lastAccessed
                && (now <= s.expiresAt ==> info.sessionRemainingMinutes * 60 <= s.expiresAt - now < info.sessionRemainingMinutes * 60 + 60)
                && info.fileCleanupRemainingMinutes == FileCleanupMinutes(s.createdAt, now)
                && info.uploadFileExists == (s.uploadDb in uploads)
                && info.processedFileExists == (s.fixedDb.Some? && s.fixedDb.value in processed)
                && info.mergeGroupsCount == |s.mergeGroups| && info.mergeGroups == s.mergeGroups
                && info.uploadDb == s.uploadDb && info.fixedDb == s.fixedDb
    {
      if sid !in sessions {
        return Err(SessionNotFound);
      }
      var s := sessions[sid];
      var processedExists := false;
      if s.fixedDb.Some? {
        processedExists := s.fixedDb.value in processed;
      }
      return Ok(SessionInfo(
        s.createdAt, s.lastAccessed, s.expiresAt,
        now > s.expiresAt,
        Minutes(s.expiresAt - now),
        FileCleanupMinutes(s.createdAt, now),
        s.uploadDb, s.uploadDb in uploads,
        s.fixedDb, processedExists,
        |s.mergeGroups|, s.mergeGroups));
    }

    /** `cleanup_old_files`: both folders lose every file older than CLEANUP_AGE. */
    method CleanupOldFiles(now: int)
      modifies this`uploads, this`processed
      ensures uploads == Recent(old(uploads), now, CleanupAge)
      ensures processed == Recent(old(processed), now, CleanupAge)
    {
      uploads := SweepFolder(uploads, now, CleanupAge);
      processed := SweepFolder(processed, now, CleanupAge);
    }

    /** The second loop of `cleanup_expired_sessions`: `cleanup_session` for each collected id. */
    method RemoveSessions(expired: set<string>)
      requires Valid() && expired <= sessions.Keys
      modifies this
      ensures Valid()
      ensures downloads == old(downloads)
      ensures sessions == old(sessions) - expired
      ensures uploads == old(uploads) - UploadsOf(old(sessions), expired)
      ensures processed == old(processed) - FixedOf(old(sessions), expired)
    {
      ghost var ss := sessions;
      ghost var done: set<string> := {};
      var todo := expired;
      while todo != {}
        invariant Valid()
        invariant todo <= expired <= ss.Keys
        invariant done == expired - todo
        invariant downloads == old(downloads) && ss == old(sessions)
        invariant sessions == ss - done
        invariant uploads == old(uploads) - UploadsOf(ss, done)
        invariant processed == old(processed) - FixedOf(ss, done)
        decreases |todo|
      {
        var sid :| sid in todo;
        assert sid in sessions;
        ghost var u0, p0 := uploads, processed;
        var _ := CleanupSession(sid);
        MapMinusStep(ss, done, sid);
        UploadsStep(old(uploads), ss, done, sid, u0, uploads);
        FixedStep(old(processed), ss, done, sid, p0, processed);
        todo := todo - {sid};
        done := done + {sid};
      }
      assert done == expired;
    }

    /**
     * `cleanup_expired_sessions`: removes exactly the sessions with `now > expires_at`,
     * with their files, then runs `cleanup_old_files`; returns how many sessions expired.
     */
    method CleanupExpiredSessions(now: int) returns (count: nat)
      requires Valid()
      modifies this
      ensures Valid()
      ensures downloads == old(downloads)
      ensures count == |ExpiredIds(old(sessions), now)|
      ensures sessions == old(sessions) - ExpiredIds(old(sessions), now)
      ensures forall sid :: sid in sessions ==> now <= sessions[sid].expiresAt
      ensures uploads == Recent(old(uploads) - UploadsOf(old(sessions), ExpiredIds(old(sessions), now)), now, CleanupAge)
      ensures processed == Recent(old(processed) - FixedOf(old(sessions), ExpiredIds(old(sessions), now)), now, CleanupAge)
    {
      var expired := CollectExpired(sessions, now);
      RemoveSessions(expired);
      CleanupOldFiles(now);
      count := |expired|;
    }
  }
}
