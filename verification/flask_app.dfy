/**
 * The original Flask front end: one visitor's cookie session (upload name, merge-group
 * list, merged file name), the upload and processed folders, the download-counter file,
 * and its helpers `allowed_file`, `format_time` and the counter's read and write.
 * The book merge itself is `StatsDb.MergeBooks`, shared with the API server.
 */
module FlaskApp {
  import opened Wrappers
  import opened Text
  import opened StatsDb
  import opened Sessions

  /** CLEANUP_AGE: ten minutes. */
  const FlaskCleanupAge: int := 600

  /** `allowed_file`: the name has a "." and the part after the last one, lower-cased, is "sqlite3". */
  predicate AllowedFile(fname: string) {
    match LastIndexOfChar(fname, '.')
    case None => false
    case Some(i) => Lower(fname[i + 1..]) == "sqlite3"
  }

  /** A name is allowed exactly when its last eight characters, lower-cased, are ".sqlite3". */
  lemma AllowedFileIff(fname: string)
    ensures AllowedFile(fname) <==> |fname| >= 8 && Lower(fname[|fname| - 8..]) == ".sqlite3"
  {
    if |fname| >= 8 && Lower(fname[|fname| - 8..]) == ".sqlite3" {
      var j := |fname| - 8;
      var tail := fname[j..];
      assert Lower(tail)[0] == '.';
      assert fname[j] == '.';
      forall k | j < k < |fname|
        ensures fname[k] != '.'
      {
        assert Lower(tail)[k - j] == ".sqlite3"[k - j];
      }
      var i := LastIndexOfChar(fname, '.').value;
      assert i == j;
      assert Lower(fname[j + 1..]) == Lower(tail)[1..];
    }
    if AllowedFile(fname) {
      var i := LastIndexOfChar(fname, '.').value;
      assert |fname[i + 1..]| == 7;
      assert i == |fname| - 8;
      assert fname[i..] == [fname[i]] + fname[i + 1..];
      assert Lower(fname[i..]) == [ToLower(fname[i])] + Lower(fname[i + 1..]) by {
        LowerAppend([fname[i]], fname[i + 1..]);
      }
    }
  }

  // ---------------------------------------------------------------------------
  // format_time

  /** The value handed to the `format_time` template filter. */
  datatype TimeValue = IntArg(n: int) | TextArg(s: string) | NoneArg

  /** `(total // 3600, (total % 3600) // 60, total % 60)` with Python's floor division. */
  function HMS(total: int): (r: (int, int, int))
    ensures r.0 * 3600 + r.1 * 60 + r.2 == total
    ensures 0 <= r.1 < 60 && 0 <= r.2 < 60
    ensures total >= 0 ==> r.0 >= 0
  {
    var h := total / 3600;
    var rest := total % 3600;
    var m := rest / 60;
    var x := rest % 60;
    assert total % 60 == x by {
      assert total == h * 3600 + m * 60 + x;
      assert total == (h * 60 + m) * 60 + x;
    }
    (h, m, x)
  }

  /** Leading zeros do not change a digit string's value. */
  lemma {:induction false} DigitsValueLeadingZero(d: string)
    requires AllDigits(d)
    ensures AllDigits("0" + d) && DigitsValue("0" + d) == DigitsValue(d)
    decreases |d|
  {
    var z := "0" + d;
    if d != [] {
      var init := d[..|d| - 1];
      DigitsValueLeadingZero(init);
      assert z[..|z| - 1] == "0" + init;
    }
  }

  /** `f"{n:02d}"`: at least two characters, zero-padded after the sign. */
  function Pad2(n: int): string {
    if 0 <= n < 10 then "0" + NatToString(n) else IntToString(n)
  }

  /** A padded field has at least two characters, and exactly two digits below 100. */
  lemma Pad2Width(n: int)
    ensures |Pad2(n)| >= 2
    ensures 0 <= n < 100 ==> |Pad2(n)| == 2 && AllDigits(Pad2(n))
  {
    if n >= 10 {
      assert NatToString(n) == NatToString(n / 10) + [DigitChar(n % 10)];
      if n < 100 {
        assert |NatToString(n / 10)| == 1;
      }
    } else if n < 0 {
      assert |NatToString(-n)| >= 1;
    }
  }

  /** A padded field reads back as `n`. */
  lemma Pad2ReadsBack(n: int)
    ensures PyInt(Pad2(n)) == Some(n)
  {
    if 0 <= n < 10 {
      var d := NatToString(n);
      DigitsValueLeadingZero(d);
      StripIdentity("0" + d);
    } else {
      PyIntOfIntToString(n);
    }
  }

  /** `int(value)` in `format_time_filter`: None raises, text is parsed. */
  function Seconds(v: TimeValue): Option<int> {
    match v
    case IntArg(n) => Some(n)
    case TextArg(s) => PyInt(s)
    case NoneArg => None
  }

  /** `f"{hrs:02d}h:{mins:02d}m:{secs:02d}s"` for a number of seconds. */
  function FormatSeconds(total: int): string {
    var t := HMS(total);
    Pad2(t.0) + "h:" + Pad2(t.1) + "m:" + Pad2(t.2) + "s"
  }

  /** `format_time_filter`: a value `int()` rejects gives "00h:00m:00s". */
  function FormatTime(v: TimeValue): string {
    match Seconds(v)
    case None => "00h:00m:00s"
    case Some(total) => FormatSeconds(total)
  }

  /** Where the three fields sit in "HHh:MMm:SSs" when minutes and seconds take two characters. */
  lemma FieldPositions(h: string, m: string, x: string)
    requires |m| == 2 && |x| == 2
    ensures var r := h + "h:" + m + "m:" + x + "s";
            |r| == |h| + 9 && r[..|r| - 9] == h && r[|r| - 7..|r| - 5] == m && r[|r| - 3..|r| - 1] == x
  {
    var w := "h:" + m + "m:" + x + "s";
    var r := h + "h:" + m + "m:" + x + "s";
    assert r == h + w;
    assert |r| == |h| + 9;
    assert r[..|h|] == h;
    assert r[|h| + 2..|h| + 4] == w[2..4] == m;
    assert r[|h| + 6..|h| + 8] == w[6..8] == x;
  }

  lemma FormatSecondsFields(sec: int)
    ensures var r := FormatSeconds(sec);
            var t := HMS(sec);
            && |r| == |Pad2(t.0)| + 9 && r[..|r| - 9] == Pad2(t.0)
            && r[|r| - 7..|r| - 5] == Pad2(t.1) && r[|r| - 3..|r| - 1] == Pad2(t.2)
  {
    var t := HMS(sec);
    Pad2Width(t.1);
    Pad2Width(t.2);
    FieldPositions(Pad2(t.0), Pad2(t.1), Pad2(t.2));
  }

  /**
   * The printed hours, minutes and seconds read back as numbers that rebuild the input:
   * `h * 3600 + m * 60 + s == sec`, minutes and seconds below 60, and hours not negative
   * for a non-negative input.
   */
  lemma FormatSecondsReadsBack(sec: int)
    ensures var r := FormatSeconds(sec);
            var h := PyInt(r[..|r| - 9]);
            var m := PyInt(r[|r| - 7..|r| - 5]);
            var s := PyInt(r[|r| - 3..|r| - 1]);
            && h.Some? && m.Some? && s.Some?
            && h.value * 3600 + m.value * 60 + s.value == sec
            && 0 <= m.value < 60 && 0 <= s.value < 60
            && (sec >= 0 ==> h.value >= 0)
  {
    FormatSecondsFields(sec);
    var t := HMS(sec);
    Pad2ReadsBack(t.0);
    Pad2ReadsBack(t.1);
    Pad2ReadsBack(t.2);
  }

  /** Zero seconds print as "00h:00m:00s", the text of the fallback. */
  lemma FormatZero()
    ensures FormatSeconds(0) == "00h:00m:00s"
  {
    assert HMS(0) == (0, 0, 0);
    assert DigitChar(0) == '0';
    assert Pad2(0) == "00";
  }

  /** Text that is a decimal integer formats exactly like that integer; anything else like 0. */
  lemma FormatTimeOfText(s: string)
    ensures PyInt(s).Some? ==> FormatTime(TextArg(s)) == FormatTime(IntArg(PyInt(s).value))
    ensures PyInt(s).None? ==> FormatTime(TextArg(s)) == FormatTime(IntArg(0))
  {
    FormatZero();
  }

  // ---------------------------------------------------------------------------
  // The download counter file

  /**
   * `get_download_count` on the counter file's content (None when it cannot be read): the
   * stripped text read as an integer, and 0 when the file is missing, blank or not an integer.
   */
  function CounterValue(file: Option<string>): (n: int)
    ensures file.None? ==> n == 0
    ensures file.Some? && Strip(file.value) == [] ==> n == 0
    ensures file.Some? && PyInt(Strip(file.value)).Some? ==> n == PyInt(Strip(file.value)).value
    ensures file.Some? && PyInt(Strip(file.value)).None? ==> n == 0
    ensures file.Some? && PyInt(file.value).Some? ==> n == PyInt(file.value).value
  {
    match file
    case None => 0
    case Some(text) =>
      var t := Strip(text);
      PyIntOfStrip(text);
      if t == [] then 0 else PyInt(t).GetOr(0)
  }

  /**
   * A leading separator 0x1c-0x1f: `int()` rejects the raw text, so `format_time` prints the
   * fallback, while the counter file strips it first and reads the number.
   */
  lemma SeparatorBeforeDigits(c: char, d: string)
    requires 28 <= c as int <= 31 && d != [] && AllDigits(d)
    ensures FormatTime(TextArg([c] + d)) == FormatTime(IntArg(0))
    ensures CounterValue(Some([c] + d)) == DigitsValue(d)
  {
    PyIntRejectsSeparator(c, d);
    StripDropsSeparator(c, d);
    PyIntOfDigits(d);
    FormatZero();
  }

  /** `set_download_count` writes `str(count)`, which `get_download_count` reads back. */
  lemma CounterRoundTrip(n: int)
    ensures CounterValue(Some(IntToString(n))) == n
  {
    PyIntOfIntToString(n);
  }

  // ---------------------------------------------------------------------------
  // One visitor

  class FlaskApp {
    /** `session["user_id"]`, assigned by the before-request hook. */
    var userId: Option<string>
    /** `session["upload_db"]` */
    var uploadDb: Option<string>
    /** `session["merge_groups"]` */
    var mergeGroups: seq<Group>
    /** `session["fixed_db"]` */
    var fixedDb: Option<string>
    var uploads: map<string, StoredFile>
    var processed: map<string, StoredFile>
    /** The content of the counter file, None when it cannot be read. */
    var counterFile: Option<string>

    constructor (counter: Option<string>)
      ensures userId.None? && uploadDb.None? && mergeGroups == [] && fixedDb.None?
      ensures uploads == map[] && processed == map[] && counterFile == counter
    {
      userId, uploadDb, mergeGroups, fixedDb := None, None, [], None;
      uploads, processed := map[], map[];
      counterFile := counter;
    }

    /** `cleanup_old_files`: both folders lose every file older than ten minutes. */
    method CleanupOldFiles(now: int)
      modifies this`uploads, this`processed
      ensures uploads == Recent(old(uploads), now, FlaskCleanupAge)
      ensures processed == Recent(old(processed), now, FlaskCleanupAge)
    {
      uploads := SweepFolder(uploads, now, FlaskCleanupAge);
      processed := SweepFolder(processed, now, FlaskCleanupAge);
    }

    /**
     * The before-request hook: the old-file sweep, then a fresh user id and an empty group
     * list for a visitor without one (`freshId` stands for `uuid4()`).
     */
    method BeforeRequest(now: int, freshId: string)
      modifies this
      ensures uploads == Recent(old(uploads), now, FlaskCleanupAge)
      ensures processed == Recent(old(processed), now, FlaskCleanupAge)
      ensures old(userId).None? ==> userId == Some(freshId) && mergeGroups == []
      ensures old(userId).Some? ==> userId == old(userId) && mergeGroups == old(mergeGroups)
      ensures uploadDb == old(uploadDb) && fixedDb == old(fixedDb) && counterFile == old(counterFile)
    {
      CleanupOldFiles(now);
      if userId.None? {
        userId := Some(freshId);
        mergeGroups := [];
      }
    }

    /**
     * The upload form: a missing or disallowed name is refused; otherwise the file is saved
     * as "<user id>.sqlite3". The schema errors of `validate_db` remove it again; a file that
     * is not a database at all makes the validation raise an error that is not caught, so
     * the request fails and the saved file stays. On success the group list is reset;
     * `fixed_db` is left as it was.
     */
    method Upload(filename: string, content: DbFile, now: int) returns (accepted: bool)
      requires userId.Some?
      modifies this
      ensures accepted <==> filename != [] && AllowedFile(filename) && ValidateDb(content).None?
      ensures userId == old(userId) && fixedDb == old(fixedDb) && processed == old(processed)
      ensures counterFile == old(counterFile)
      ensures accepted ==> && uploads == old(uploads)[UploadName(userId.value) := StoredFile(content, now)]
                           && uploadDb == Some(UploadName(userId.value)) && mergeGroups == []
      ensures !accepted && filename != [] && AllowedFile(filename) && content.Sqlite? ==>
                uploads == old(uploads) - {UploadName(userId.value)} &&
                uploadDb == old(uploadDb) && mergeGroups == old(mergeGroups)
      ensures filename != [] && AllowedFile(filename) && content.Corrupt? ==>
                uploads == old(uploads)[UploadName(userId.value) := StoredFile(content, now)] &&
                uploadDb == old(uploadDb) && mergeGroups == old(mergeGroups)
      ensures !(filename != [] && AllowedFile(filename)) ==>
                uploads == old(uploads) && uploadDb == old(uploadDb) && mergeGroups == old(mergeGroups)
    {
      if filename == [] || !AllowedFile(filename) {
        return false;
      }
      var saved := UploadName(userId.value);
      uploads := uploads[saved := StoredFile(content, now)];
      var problem := ValidateDb(content);
      if problem == Some(NotADatabase) {
        return false;
      }
      if problem.Some? {
        uploads := uploads - {saved};
        return false;
      }
      uploadDb := Some(saved);
      mergeGroups := [];
      accepted := true;
    }

    /**
     * The merge page lists the upload's books before it looks at the form action: with no
     * upload recorded it redirects, and when the file is gone or cannot be listed the
     * listing raises. Either way no action runs.
     */
    predicate MergePageLoads()
      reads this
    {
      uploadDb.Some? && uploadDb.value in uploads && Listable(uploads[uploadDb.value].content)
    }

    /**
     * The `add_group` action: `keep_id` is dropped from `merge_ids` and the group is appended
     * only if something remains; the action is not reached unless the merge page loads.
     */
    method AddGroup(keepId: int, mergeIds: seq<int>) returns (added: bool)
      modifies this`mergeGroups
      ensures added <==> MergePageLoads() && exists x :: x in mergeIds && x != keepId
      ensures added ==> mergeGroups == old(mergeGroups) + [Group(keepId, Without(mergeIds, keepId))]
      ensures !added ==> mergeGroups == old(mergeGroups)
    {
      if !MergePageLoads() {
        return false;
      }
      var rest := Without(mergeIds, keepId);
      if rest == [] {
        assert forall x :: x in mergeIds ==> x == keepId;
        return false;
      }
      assert rest[0] in mergeIds;
      mergeGroups := mergeGroups + [Group(keepId, rest)];
      added := true;
    }

    /**
     * The `remove_last` action: pops the last group; an empty list is silently left alone.
     * Nothing happens unless the merge page loads.
     */
    method RemoveLast()
      modifies this`mergeGroups
      ensures MergePageLoads() && old(mergeGroups) != [] ==> mergeGroups == old(mergeGroups)[..|old(mergeGroups)| - 1]
      ensures !MergePageLoads() || old(mergeGroups) == [] ==> mergeGroups == old(mergeGroups)
    {
      if MergePageLoads() && mergeGroups != [] {
        mergeGroups := mergeGroups[..|mergeGroups| - 1];
      }
    }

    /** The `clear_groups` action; nothing happens unless the merge page loads. */
    method ClearGroups()
      modifies this`mergeGroups
      ensures MergePageLoads() ==> mergeGroups == []
      ensures !MergePageLoads() ==> mergeGroups == old(mergeGroups)
    {
      if MergePageLoads() {
        mergeGroups := [];
      }
    }

    /**
     * The `run_all` action: unless the merge page loads, or with no groups, nothing happens. Otherwise the upload is copied to
     * "<user id>_fixed.sqlite3" and the groups are merged into the copy in order. A failing
     * merge leaves the copy with the groups before it applied, and `fixed_db` unset; the
     * processed file is not removed. `failAt` injects a failure as in `RunGroups`.
     */
    method RunAll(failAt: Option<(nat, nat)>, now: int) returns (ok: bool)
      requires userId.Some?
      modifies this`processed, this`fixedDb
      ensures !MergePageLoads() || mergeGroups == [] ==>
                !ok && processed == old(processed) && fixedDb == old(fixedDb)
      ensures MergePageLoads() && mergeGroups != [] ==>
                var src := uploads[uploadDb.value].content;
                var dst := FixedName(userId.value);
                && (ok <==> !FaultHits(failAt, mergeGroups) && ApplyGroups(src, mergeGroups).Some?)
                && (ok ==> && processed == old(processed)[dst := StoredFile(ApplyGroups(src, mergeGroups).value, now)]
                           && fixedDb == Some(dst))
                && (!ok ==> && fixedDb == old(fixedDb)
                            && exists k :: 0 <= k < |mergeGroups| && ApplyGroups(src, mergeGroups[..k]).Some? &&
                                 processed == old(processed)[dst := StoredFile(ApplyGroups(src, mergeGroups[..k]).value, now)])
    {
      if !MergePageLoads() || mergeGroups == [] {
        return false;
      }
      var dst := FixedName(userId.value);
      var copy, done := RunGroups(uploads[uploadDb.value].content, mergeGroups, failAt);
      processed := processed[dst := StoredFile(copy, now)];
      if done < |mergeGroups| {
        return false;
      }
      assert mergeGroups[..done] == mergeGroups;
      fixedDb := Some(dst);
      ok := true;
    }

    /** `set_download_count`: the counter file holds `str(count)`, which reads back as `count`. */
    method SetDownloadCount(count: int)
      modifies this`counterFile
      ensures counterFile == Some(IntToString(count))
      ensures CounterValue(counterFile) == count
    {
      counterFile := Some(IntToString(count));
      CounterRoundTrip(count);
    }

    /**
     * The download page: needs both an upload and a merged file. The counter file is
     * rewritten one higher and the upload is removed; the merged file stays for serving.
     */
    method Download() returns (ok: bool)
      modifies this`counterFile, this`uploads
      ensures ok <==> fixedDb.Some? && uploadDb.Some?
      ensures ok ==> && counterFile == Some(IntToString(CounterValue(old(counterFile)) + 1))
                     && CounterValue(counterFile) == CounterValue(old(counterFile)) + 1
                     && uploads == old(uploads) - {uploadDb.value}
      ensures !ok ==> counterFile == old(counterFile) && uploads == old(uploads)
    {
      ok := fixedDb.Some? && uploadDb.Some?;
      if ok {
        var count := CounterValue(counterFile) + 1;
        SetDownloadCount(count);
        uploads := uploads - {uploadDb.value};
      }
    }

    /** Serving the merged file: a missing file is a 404; a served file is removed afterwards. */
    method ServeProcessed(filename: string) returns (file: Option<DbFile>)
      modifies this`processed
      ensures filename in old(processed) ==> file == Some(old(processed)[filename].content)
      ensures filename !in old(processed) ==> file.None?
      ensures processed == old(processed) - {filename}
    {
      if filename !in processed {
        return None;
      }
      file := Some(processed[filename].content);
      processed := processed - {filename};
    }

    /** The cleanup page: removes both of the visitor's files and clears the session. */
    method Cleanup()
      modifies this
      ensures uploads == if old(uploadDb).Some? then old(uploads) - {old(uploadDb).value} else old(uploads)
      ensures processed == if old(fixedDb).Some? then old(processed) - {old(fixedDb).value} else old(processed)
      ensures userId.None? && uploadDb.None? && fixedDb.None? && mergeGroups == []
      ensures counterFile == old(counterFile)
    {
      if uploadDb.Some? {
        uploads := uploads - {uploadDb.value};
      }
      if fixedDb.Some? {
        processed := processed - {fixedDb.value};
      }
      userId, uploadDb, fixedDb, mergeGroups := None, None, None, [];
    }
  }
}
