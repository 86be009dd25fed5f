/**
 * `CoverStorageService`: the `cover_images` table keyed by book hash (with a unique image
 * hash), the covers folder, and the download-and-store, delete and orphan-sweep operations.
 * The SHA-256 of the normalised "title|author" key is replaced by the key itself, and the
 * SHA-256 of an image by the function `hashOf` passed in; downloads are replies passed in.
 */
module CoverStorage {
  import opened Wrappers
  import opened Text

  type Bytes = seq<bv8>

  // ---------------------------------------------------------------------------
  // Pure pieces

  /** `value.lower().strip() if value else ""` */
  function Norm(value: Option<string>): string {
    if value.None? || value.value == [] then "" else Strip(Lower(value.value))
  }

  /** The text `generate_book_hash` hashes: the normalised title and author joined by "|". */
  function BookHashKey(title: Option<string>, author: Option<string>): string {
    Norm(title) + "|" + Norm(author)
  }

  lemma LowerTwice(s: string)
    ensures Lower(Lower(s)) == Lower(s)
  {
  }

  predicate AllSpace(p: string) {
    forall i :: 0 <= i < |p| ==> IsSpace(p[i])
  }

  lemma {:induction false} LStripSpacePrefix(p: string, s: string)
    requires AllSpace(p)
    ensures LStrip(p + s) == LStrip(s)
    decreases |p|
  {
    if p == [] {
      assert p + s == s;
    } else {
      assert (p + s)[0] == p[0] && (p + s)[1..] == p[1..] + s;
      LStripSpacePrefix(p[1..], s);
    }
  }

  lemma {:induction false} RStripSpaceSuffix(s: string, q: string)
    requires AllSpace(q)
    ensures RStrip(s + q) == RStrip(s)
    decreases |q|
  {
    if q == [] {
      assert s + q == s;
    } else {
      assert (s + q)[|s + q| - 1] == q[|q| - 1] && (s + q)[..|s + q| - 1] == s + q[..|q| - 1];
      RStripSpaceSuffix(s, q[..|q| - 1]);
    }
  }

  lemma {:induction false} LStripSpaceAppend(s: string, q: string)
    requires AllSpace(q)
    ensures LStrip(s + q) == if LStrip(s) == [] then [] else LStrip(s) + q
    decreases |s|
  {
    if s == [] {
      LStripSpacePrefix(q, []);
      assert q + [] == q;
    } else {
      assert (s + q)[1..] == s[1..] + q;
      LStripSpaceAppend(s[1..], q);
    }
  }

  /** `strip()` ignores whitespace added at either end. */
  lemma StripPadded(p: string, s: string, q: string)
    requires AllSpace(p) && AllSpace(q)
    ensures Strip(p + s + q) == Strip(s)
  {
    assert p + s + q == p + (s + q);
    LStripSpacePrefix(p, s + q);
    LStripSpaceAppend(s, q);
    if LStrip(s) != [] {
      RStripSpaceSuffix(LStrip(s), q);
    }
  }

  /** Lower-cased text that is already stripped is its own normal form. */
  lemma NormOfNormal(s: string)
    requires s != [] && NoOuterSpace(s) && forall i :: 0 <= i < |s| ==> !IsUpper(s[i])
    ensures Norm(Some(s)) == s
  {
    LowerIdentity(s);
    StripIdentity(s);
  }

  /**
   * Titles that differ only in letter case or in whitespace around them give the same book
   * hash (and likewise authors, the key being symmetric in the two).
   */
  lemma BookHashKeyIgnoresCaseAndPadding(title: string, author: Option<string>, p: string, q: string)
    requires AllSpace(p) && AllSpace(q)
    ensures BookHashKey(Some(Lower(title)), author) == BookHashKey(Some(title), author)
    ensures BookHashKey(Some(p + title + q), author) == BookHashKey(Some(title), author)
  {
    NormIgnoresCase(title);
    NormIgnoresPadding(title, p, q);
  }

  lemma NormIgnoresCase(s: string)
    ensures Norm(Some(Lower(s))) == Norm(Some(s))
  {
    LowerTwice(s);
  }

  lemma NormIgnoresPadding(s: string, p: string, q: string)
    requires AllSpace(p) && AllSpace(q)
    ensures Norm(Some(p + s + q)) == Norm(Some(s))
  {
    var l := Lower(s);
    PaddedLower(s, p, q);
    StripPadded(p, l, q);
  }

  /** Lower-casing leaves the whitespace padding as it is. */
  lemma PaddedLower(s: string, p: string, q: string)
    requires AllSpace(p) && AllSpace(q)
    ensures Lower(p + s + q) == p + Lower(s) + q
  {
    assert Lower(p) == p && Lower(q) == q;
    LowerAppend(p + s, q);
    LowerAppend(p, s);
  }

  /**
   * A "|" inside a title or author makes two different books share a key: the title
   * "x|y" without an author and the title "x" by "y|".
   */
  lemma BookHashKeyAmbiguous(x: string, y: string)
    requires Lower(x) == x && NoOuterSpace(x) && x != []
    requires Lower(y) == y && NoOuterSpace(y) && y != []
    ensures x + "|" + y != x
    ensures BookHashKey(Some(x + "|" + y), None) == BookHashKey(Some(x), Some(y + "|"))
  {
    var a, b := x + "|" + y, y + "|";
    BarJoin(x, y);
    assert y + "|" + [] == b;
    BarJoin(y, []);
    NormFixed(a);
    NormFixed(b);
    NormFixed(x);
    BarRegroup(x, y);
    SameKey(Some(a), None, Some(x), Some(b), a, "", x, b);
  }

  lemma BarRegroup(x: string, y: string)
    ensures x + "|" + y + "|" + "" == x + "|" + (y + "|")
  {
  }

  /** Two books whose parts normalise to the same joined text share a key. */
  lemma SameKey(t1: Option<string>, a1: Option<string>, t2: Option<string>, a2: Option<string>,
                n1: string, m1: string, n2: string, m2: string)
    requires Norm(t1) == n1 && Norm(a1) == m1 && Norm(t2) == n2 && Norm(a2) == m2
    requires n1 + "|" + m1 == n2 + "|" + m2
    ensures BookHashKey(t1, a1) == BookHashKey(t2, a2)
  {
  }

  /** Text that is its own normal form is lower-case with no whitespace at either end. */
  lemma NormalForm(x: string)
    requires Strip(Lower(x)) == x
    ensures Lower(x) == x && NoOuterSpace(x)
  {
    var l := Lower(x);
    StripIsSlice(l);
    assert StripOffset(l) == 0;
    assert l[0..|l|] == l;
  }

  /** Lower-case text with no whitespace at either end is its own normal form. */
  lemma NormFixed(t: string)
    requires Lower(t) == t && NoOuterSpace(t)
    ensures Norm(Some(t)) == t
  {
    StripIdentity(t);
  }

  /** "|" is neither whitespace nor upper case, so it joins normal parts into normal text. */
  lemma BarJoin(x: string, y: string)
    requires Lower(x) == x && Lower(y) == y && NoOuterSpace(x) && NoOuterSpace(y) && x != []
    ensures Lower(x + "|" + y) == x + "|" + y && NoOuterSpace(x + "|" + y)
  {
    var t := x + "|" + y;
    LowerAppend(x + "|", y);
    LowerAppend(x, "|");
    assert t[0] == x[0];
    if y != [] {
      assert t[|t| - 1] == y[|y| - 1];
    }
  }

  /** The book hash of each listed (title, author) pair, in order. */
  function BookHashes(books: seq<(Option<string>, Option<string>)>): (hs: seq<string>)
    ensures |hs| == |books|
    ensures forall i :: 0 <= i < |books| ==> hs[i] == BookHashKey(books[i].0, books[i].1)
  {
    seq(|books|, i requires 0 <= i < |books| => BookHashKey(books[i].0, books[i].1))
  }

  const AllowedExtensions: set<string> := {"jpg", "jpeg", "png", "webp", "gif"}

  /**
   * The file extension of a downloaded cover: from the lower-cased content type ("jpeg" or
   * "jpg", then "png", then "webp"), else the URL's text after its last ".", lower-cased,
   * when that is an allowed extension, else "jpg".
   */
  function FileExtension(contentType: Option<string>, url: string): (ext: string)
    ensures ext in AllowedExtensions
    ensures var ct := Lower(contentType.GetOr(""));
            && ((Contains(ct, "jpeg") || Contains(ct, "jpg")) ==> ext == "jpg")
            && (!Contains(ct, "jpeg") && !Contains(ct, "jpg") && Contains(ct, "png") ==> ext == "png")
            && (!Contains(ct, "jpeg") && !Contains(ct, "jpg") && !Contains(ct, "png") && Contains(ct, "webp") ==> ext == "webp")
    ensures ext == "jpeg" || ext == "gif" ==>
              exists i :: 0 <= i < |url| && url[i] == '.' && '.' !in url[i + 1..] && Lower(url[i + 1..]) == ext
    ensures var ct := Lower(contentType.GetOr(""));
            !Contains(ct, "jpeg") && !Contains(ct, "jpg") && !Contains(ct, "png") && !Contains(ct, "webp") ==>
              ext == UrlExtension(url)
  {
    var ct := Lower(contentType.GetOr(""));
    if Contains(ct, "jpeg") || Contains(ct, "jpg") then "jpg"
    else if Contains(ct, "png") then "png"
    else if Contains(ct, "webp") then "webp"
    else UrlExtension(url)
  }

  /** An allowed extension is kept; anything else becomes "jpg". */
  function AllowedOr(tail: string): (ext: string)
    ensures ext in AllowedExtensions
    ensures tail in AllowedExtensions ==> ext == tail
    ensures tail !in AllowedExtensions ==> ext == "jpg"
  {
    if tail in AllowedExtensions then tail else "jpg"
  }

  /**
   * The fallback of a content type that names no format: the URL's text after its last ".",
   * lower-cased, when that is an allowed extension, else "jpg" (also when there is no ".").
   */
  function UrlExtension(url: string): (ext: string)
    ensures ext in AllowedExtensions
    ensures '.' !in url ==> ext == "jpg"
    ensures ext == "jpeg" || ext == "gif" ==>
              exists i :: 0 <= i < |url| && url[i] == '.' && '.' !in url[i + 1..] && Lower(url[i + 1..]) == ext
  {
    match LastIndexOfChar(url, '.')
    case None => "jpg"
    case Some(i) => ExtensionAfter(url, i)
  }

  /** The lower-cased text after position `i` if it is an allowed extension, else "jpg". */
  function ExtensionAfter(url: string, i: nat): string
    requires i < |url|
  {
    AllowedOr(Lower(url[i + 1..]))
  }

  /** With its last "." at `i`, the URL gives its lower-cased text after `i` if allowed, else "jpg". */
  lemma UrlExtensionAfterLastDot(url: string, i: nat)
    requires i < |url| && url[i] == '.' && '.' !in url[i + 1..]
    ensures UrlExtension(url) == ExtensionAfter(url, i)
  {
    LastIndexOfCharAt(url, '.', i);
  }

  /** A row of `cover_images`. */
  datatype CoverRow = CoverRow(
    imageHash: string,
    localPath: string,
    source: string,
    originalUrl: string,
    fileSize: nat,
    imageFormat: string,
    title: string,
    author: string,
    createdAt: int)

  /** `image_hash` is UNIQUE: no two rows share one. */
  predicate UniqueImages(rows: map<string, CoverRow>) {
    forall b1, b2 :: b1 in rows && b2 in rows && b1 != b2 ==> rows[b1].imageHash != rows[b2].imageHash
  }

  /**
   * `INSERT OR REPLACE` of `row` under book hash `b`: the row clashing on the book hash and
   * any row clashing on the image hash are replaced.
   */
  function ReplaceRow(rows: map<string, CoverRow>, b: string, row: CoverRow): (r: map<string, CoverRow>)
    ensures b in r && r[b] == row
    ensures forall k :: k in r && k != b <==> k in rows && k != b && rows[k].imageHash != row.imageHash
    ensures forall k :: k in r && k != b ==> r[k] == rows[k]
  {
    (map k | k in rows && rows[k].imageHash != row.imageHash :: rows[k])[b := row]
  }

  /** Replacing keeps the image hashes unique. */
  lemma ReplaceRowUnique(rows: map<string, CoverRow>, b: string, row: CoverRow)
    requires UniqueImages(rows)
    ensures UniqueImages(ReplaceRow(rows, b, row))
  {
  }

  /** What fetching the cover URL gave: an exception, or a reply. */
  datatype Response = Unreachable | Reply(status: int, contentType: Option<string>, body: Bytes)

  class CoverStore {
    /** `cover_images` by book hash. */
    var rows: map<string, CoverRow>
    /** The covers folder: file name to content. */
    var files: map<string, Bytes>

    /** `image_hash` is UNIQUE: no two rows share one. */
    predicate Valid()
      reads this
    {
      UniqueImages(rows)
    }

    constructor ()
      ensures Valid() && rows == map[] && files == map[]
    {
      rows := map[];
      files := map[];
    }

    /** `get_stored_cover` */
    method GetStoredCover(bookHash: string) returns (row: Option<CoverRow>)
      ensures row.Some? <==> bookHash in rows
      ensures row.Some? ==> row.value == rows[bookHash]
    {
      if bookHash !in rows {
        return None;
      }
      row := Some(rows[bookHash]);
    }

    /**
     * `get_batch_stored_covers`: the stored row of every listed book that has one, by book
     * hash; books without a cover are simply absent.
     */
    method GetBatchStoredCovers(books: seq<(Option<string>, Option<string>)>) returns (found: map<string, CoverRow>)
      ensures forall b :: b in found <==> b in rows && b in BookHashes(books)
      ensures forall b :: b in found ==> found[b] == rows[b]
      ensures |books| == 0 ==> found == map[]
    {
      found := SelectRows(rows, BookHashes(books));
    }

    /**
     * `download_and_store_cover`: a book that already has a cover gets its image hash back
     * with nothing fetched or written. Otherwise an unreachable URL, a status other than 200
     * or an empty body gives None and stores nothing; a good image is written as
     * "<image hash>.<extension>" and its row replaces both the book's row and any row with
     * the same image hash.
     */
    method DownloadAndStoreCover(title: string, author: string, url: string, source: string,
                                 response: Response, hashOf: Bytes -> string, now: int)
      returns (imageHash: Option<string>)
      requires Valid()
      modifies this
      ensures Valid()
      ensures var b := BookHashKey(Some(title), Some(author));
              b in old(rows) ==> imageHash == Some(old(rows)[b].imageHash) && rows == old(rows) && files == old(files)
      ensures var b := BookHashKey(Some(title), Some(author));
              b !in old(rows) && !(response.Reply? && response.status == 200 && response.body != []) ==>
                imageHash.None? && rows == old(rows) && files == old(files)
      ensures var b := BookHashKey(Some(title), Some(author));
              b !in old(rows) && response.Reply? && response.status == 200 && response.body != [] ==>
                var ih := hashOf(response.body);
                var name := ih + "." + FileExtension(response.contentType, url);
                && imageHash == Some(ih)
                && files == old(files)[name := response.body]
                && b in rows && rows[b].imageHash == ih && rows[b].localPath == name
                && (forall k :: k in rows && k != b <==> k in old(rows) && k != b && old(rows)[k].imageHash != ih)
                && (forall k :: k in rows && k != b ==> rows[k] == old(rows)[k])
    {
      var b := BookHashKey(Some(title), Some(author));
      if b in rows {
        return Some(rows[b].imageHash);
      }
      if response.Unreachable? || response.status != 200 || response.body == [] {
        return None;
      }
      var ih := hashOf(response.body);
      var ext := FileExtension(response.contentType, url);
      var name := ih + "." + ext;
      files := files[name := response.body];
      var row := CoverRow(ih, name, source, url, |response.body|, ext, title, author, now);
      ReplaceRowUnique(rows, b, row);
      rows := ReplaceRow(rows, b, row);
      imageHash := Some(ih);
    }

    /** `get_cover_file_path`: the file of the row with that image hash, if the file exists. */
    method GetCoverFilePath(imageHash: string) returns (path: Option<string>)
      requires Valid()
      ensures path.Some? <==> exists b :: b in rows && rows[b].imageHash == imageHash && rows[b].localPath in files
      ensures path.Some? ==>
                path.value in files && exists b :: b in rows && rows[b].imageHash == imageHash && rows[b].localPath == path.value
    {
      if b :| b in rows && rows[b].imageHash == imageHash {
        var p := rows[b].localPath;
        if p in files {
          return Some(p);
        }
        return None;
      }
      path := None;
    }

    /**
     * `delete_stored_cover`: False when nothing is stored for the book; otherwise its file is
     * removed if present, its row is deleted, and True is returned.
     */
    method DeleteStoredCover(bookHash: string) returns (deleted: bool)
      requires Valid()
      modifies this
      ensures Valid()
      ensures deleted <==> bookHash in old(rows)
      ensures rows == old(rows) - {bookHash}
      ensures files == if bookHash in old(rows) then old(files) - {old(rows)[bookHash].localPath} else old(files)
    {
      if bookHash !in rows {
        return false;
      }
      var p := rows[bookHash].localPath;
      if p in files {
        files := files - {p};
      }
      rows := rows - {bookHash};
      deleted := true;
    }

    /** The file names some row refers to. */
    function Referenced(): set<string>
      reads this
    {
      set b | b in rows :: rows[b].localPath
    }

    /**
     * `cleanup_orphaned_files`: every file no row refers to is unlinked; a failing unlink (a
     * name in `undeletable`) is skipped. Returns how many files were removed.
     */
    method CleanupOrphanedFiles(undeletable: set<string>) returns (deleted: nat)
      modifies this`files
      ensures files == old(files) - (old(files).Keys - Referenced() - undeletable)
      ensures deleted == |old(files).Keys - Referenced() - undeletable|
      ensures forall n :: n in old(files) && n in Referenced() ==> n in files
    {
      files, deleted := SweepOrphans(files, Referenced(), undeletable);
    }
  }

  /** The `WHERE book_hash IN (...)` query: the rows whose key is one of `hashes`. */
  method SelectRows(table: map<string, CoverRow>, hashes: seq<string>) returns (found: map<string, CoverRow>)
    ensures forall b :: b in found <==> b in table && b in hashes
    ensures forall b :: b in found ==> found[b] == table[b]
  {
    found := map[];
    for i := 0 to |hashes|
      invariant forall b :: b in found <==> b in table && b in hashes[..i]
      invariant forall b :: b in found ==> found[b] == table[b]
    {
      assert hashes[..i + 1] == hashes[..i] + [hashes[i]];
      if hashes[i] in table {
        found := found[hashes[i] := table[hashes[i]]];
      }
    }
    assert hashes[..|hashes|] == hashes;
  }

  /**
   * The loop of `cleanup_orphaned_files` over a folder: unlinks each file whose name is not
   * referenced, skipping those whose removal fails.
   */
  method SweepOrphans(folder: map<string, Bytes>, referenced: set<string>, undeletable: set<string>)
    returns (kept: map<string, Bytes>, deleted: nat)
    ensures kept == folder - (folder.Keys - referenced - undeletable)
    ensures deleted == |folder.Keys - referenced - undeletable|
    ensures forall n :: n in folder && (n in referenced || n in undeletable) ==> n in kept && kept[n] == folder[n]
  {
    ghost var gone := folder.Keys - referenced - undeletable;
    kept := folder;
    ghost var removed: set<string> := {};
    deleted := 0;
    var todo := folder.Keys;
    while todo != {}
      invariant todo <= folder.Keys
      invariant removed == set n | n in folder.Keys - todo && n in gone
      invariant kept == folder - removed
      invariant deleted == |removed|
      decreases |todo|
    {
      var n :| n in todo;
      if n !in referenced && n !in undeletable {
        assert n in gone && n !in removed;
        kept := kept - {n};
        removed := removed + {n};
        deleted := deleted + 1;
      } else {
        assert n !in gone;
      }
      todo := todo - {n};
    }
    assert removed == gone;
  }
}
