/**
 * The Amazon metadata cache: `normalize_text` and the `books` table keyed by ASIN, with
 * lookups by ASIN and by normalised title and author.
 */
module AmazonCache {
  import opened Wrappers
  import opened Text

  // ---------------------------------------------------------------------------
  // normalize_text

  /**
   * `normalize_text`: "" for a missing or empty text; otherwise punctuation is removed, the
   * text is stripped and lower-cased, and whitespace runs become one space.
   */
  function NormalizeText(text: Option<string>): string {
    if text.None? || text.value == [] then ""
    else CollapseSpaces(Lower(Strip(KeepWordAndSpace(text.value))))
  }

  /** Only lower-case word characters and single inner spaces. */
  predicate IsNormalized(s: string) {
    && (forall i :: 0 <= i < |s| ==> (IsWordChar(s[i]) && !IsUpper(s[i])) || s[i] == ' ')
    && NoOuterSpace(s)
    && SingleSpaced(s)
  }

  /** Only lower-case word characters and whitespace. */
  predicate LowerWordOrSpace(s: string) {
    forall i :: 0 <= i < |s| ==> (IsWordChar(s[i]) && !IsUpper(s[i])) || IsSpace(s[i])
  }

  /** Before the whitespace runs are collapsed, the text is lower-case, stripped and free of punctuation. */
  lemma BeforeCollapse(t: string)
    ensures LowerWordOrSpace(Lower(Strip(KeepWordAndSpace(t))))
    ensures NoOuterSpace(Lower(Strip(KeepWordAndSpace(t))))
  {
    var a := KeepWordAndSpace(t);
    StripWordOrSpace(a);
    StripNoOuterSpace(a);
    LowerWordOrSpaceOf(Strip(a));
  }

  predicate WordOrSpace(s: string) {
    forall i :: 0 <= i < |s| ==> IsWordChar(s[i]) || IsSpace(s[i])
  }

  lemma StripWordOrSpace(a: string)
    requires WordOrSpace(a)
    ensures WordOrSpace(Strip(a))
  {
    var b := Strip(a);
    StripIsSlice(a);
    forall i | 0 <= i < |b| ensures IsWordChar(b[i]) || IsSpace(b[i]) {
      assert b[i] == a[StripOffset(a) + i];
    }
  }

  lemma LowerWordOrSpaceOf(b: string)
    requires WordOrSpace(b) && NoOuterSpace(b)
    ensures LowerWordOrSpace(Lower(b)) && NoOuterSpace(Lower(b))
  {
  }

  /** Collapsing such a text gives the normalised shape. */
  lemma AfterCollapse(c: string)
    requires LowerWordOrSpace(c) && NoOuterSpace(c)
    ensures IsNormalized(CollapseSpaces(c))
  {
    var d := CollapseSpaces(c);
    CollapseChars(c);
    CollapseSingleSpaced(c);
    CollapseFirst(c);
    CollapseLast(c);
    forall i | 0 <= i < |d|
      ensures (IsWordChar(d[i]) && !IsUpper(d[i])) || d[i] == ' '
    {
      assert d[i] in d;
      if d[i] != ' ' {
        var j :| 0 <= j < |c| && c[j] == d[i];
      }
    }
  }

  /** Every result of `normalize_text` has that shape. */
  lemma NormalizeTextIsNormalized(text: Option<string>)
    ensures IsNormalized(NormalizeText(text))
  {
    if !(text.None? || text.value == []) {
      BeforeCollapse(text.value);
      AfterCollapse(Lower(Strip(KeepWordAndSpace(text.value))));
    }
  }

  /** `normalize_text` leaves normalised text unchanged. */
  lemma NormalizeTextFixes(s: string)
    requires IsNormalized(s)
    ensures NormalizeText(Some(s)) == s
  {
    if s != [] {
      assert KeepWordAndSpace(s) == s;
      StripIdentity(s);
      LowerIdentity(s);
      CollapseIdentity(s);
    }
  }

  /** `normalize_text` is idempotent. */
  lemma NormalizeTextIdempotent(text: Option<string>)
    ensures NormalizeText(Some(NormalizeText(text))) == NormalizeText(text)
  {
    NormalizeTextIsNormalized(text);
    NormalizeTextFixes(NormalizeText(text));
  }

  // ---------------------------------------------------------------------------
  // The books table

  /** The metadata columns copied verbatim from the scraped record. */
  const CopiedKeys: set<string> := {
    "Cover URL", "Book URL", "isKindleUnlimited", "ISBN", "Print Length", "Series",
    "Series Index", "Series Position", "Publisher", "Publication Date", "Edition",
    "Language", "File Size", "Average Rating", "Review Count", "Status", "Book Description"}

  /** A scraped record: its text fields by key (absent when missing) and its genre list. */
  datatype Metadata = Metadata(fields: map<string, string>, genres: seq<string>)

  /** One row of `books`. */
  datatype BookRecord = BookRecord(
    asin: Option<string>,
    title: Option<string>,
    author: Option<string>,
    titleSearch: string,
    authorSearch: string,
    genres: string,
    copied: map<string, string>)

  function Get(m: Metadata, key: string): Option<string> {
    if key in m.fields then Some(m.fields[key]) else None
  }

  /** The row `save_book_metadata` writes for a record. */
  function RecordOf(m: Metadata): (r: BookRecord)
    ensures r.asin == Get(m, "ASIN")
    ensures r.titleSearch == NormalizeText(Get(m, "Title")) && r.authorSearch == NormalizeText(Get(m, "Author"))
    ensures r.genres == Join(m.genres, ", ")
    ensures forall k :: k in r.copied <==> k in CopiedKeys && k in m.fields
    ensures forall k :: k in r.copied ==> r.copied[k] == m.fields[k]
  {
    var title := Get(m, "Title");
    var author := Get(m, "Author");
    BookRecord(Get(m, "ASIN"), title, author, NormalizeText(title), NormalizeText(author),
               Join(m.genres, ", "), map k | k in m.fields && k in CopiedKeys :: m.fields[k])
  }

  /** Both search columns are normalised text. */
  lemma RecordSearchNormalized(m: Metadata)
    ensures IsNormalized(RecordOf(m).titleSearch) && IsNormalized(RecordOf(m).authorSearch)
  {
    NormalizeTextIsNormalized(Get(m, "Title"));
    NormalizeTextIsNormalized(Get(m, "Author"));
  }

  predicate ExactMatch(r: BookRecord, title: string, author: string) {
    r.titleSearch == title && r.authorSearch == author
  }

  /** `title_search LIKE '%title%' AND author_search = author`, LIKE read as containment. */
  predicate FuzzyMatch(r: BookRecord, title: string, author: string) {
    Contains(r.titleSearch, title) && r.authorSearch == author
  }

  lemma ExactIsFuzzy(r: BookRecord, title: string, author: string)
    requires ExactMatch(r, title, author)
    ensures FuzzyMatch(r, title, author)
  {
    assert StartsWith(r.titleSearch, title);
  }

  class AmazonCacheDb {
    /** Rows with an ASIN, by ASIN. */
    var keyed: map<string, BookRecord>
    /** Rows saved without an ASIN: a NULL key never conflicts, so each save adds one. */
    var unkeyed: seq<BookRecord>

    /** `initialize_db` on a new file. */
    constructor ()
      ensures keyed == map[] && unkeyed == []
    {
      keyed := map[];
      unkeyed := [];
    }

    /** Every row of the table. */
    function Rows(): set<BookRecord>
      reads this
    {
      keyed.Values + set i | 0 <= i < |unkeyed| :: unkeyed[i]
    }

    predicate Valid()
      reads this
    {
      forall a :: a in keyed ==> keyed[a].asin == Some(a)
    }

    /**
     * `save_book_metadata`: INSERT OR REPLACE keyed by ASIN, so the new row replaces any row
     * with the same ASIN; a record without one is added as a further row.
     */
    method Save(m: Metadata)
      requires Valid()
      modifies this
      ensures Valid()
      ensures "ASIN" in m.fields ==> keyed == old(keyed)[m.fields["ASIN"] := RecordOf(m)] && unkeyed == old(unkeyed)
      ensures "ASIN" !in m.fields ==> keyed == old(keyed) && unkeyed == old(unkeyed) + [RecordOf(m)]
      ensures RecordOf(m) in Rows()
    {
      var r := RecordOf(m);
      InsertOrReplace(r);
    }

    /** The `INSERT OR REPLACE` of one row, keyed by its ASIN. */
    method InsertOrReplace(r: BookRecord)
      requires Valid()
      modifies this
      ensures Valid()
      ensures r.asin.Some? ==> keyed == old(keyed)[r.asin.value := r] && unkeyed == old(unkeyed)
      ensures r.asin.None? ==> keyed == old(keyed) && unkeyed == old(unkeyed) + [r]
      ensures r in Rows()
    {
      if r.asin.Some? {
        keyed := keyed[r.asin.value := r];
        assert r in keyed.Values by {
          assert keyed[r.asin.value] == r;
        }
      } else {
        unkeyed := unkeyed + [r];
        assert r in Rows() by {
          assert unkeyed[|unkeyed| - 1] == r;
        }
      }
    }

    /** `get_book_by_asin`: the row with that ASIN; a missing ASIN matches nothing. */
    method GetByAsin(asin: Option<string>) returns (r: Option<BookRecord>)
      requires Valid()
      ensures r.Some? <==> asin.Some? && asin.value in keyed
      ensures r.Some? ==> r.value in Rows() && r.value.asin == asin && r.value == keyed[asin.value]
    {
      if asin.None? || asin.value !in keyed {
        return None;
      }
      r := Some(keyed[asin.value]);
    }

    /**
     * `get_book_by_title_author`: a row whose search columns equal the normalised title and
     * author if there is one; only otherwise a row whose title column contains the title
     * and whose author column is equal; else None. Which of several matching rows comes back
     * is not specified.
     */
    method GetByTitleAuthor(title: Option<string>, author: Option<string>) returns (r: Option<BookRecord>)
      ensures var t, a := NormalizeText(title), NormalizeText(author);
              && (r.Some? ==> r.value in Rows() && FuzzyMatch(r.value, t, a))
              && ((exists x :: x in Rows() && ExactMatch(x, t, a)) ==> r.Some? && ExactMatch(r.value, t, a))
              && (r.None? <==> forall x :: x in Rows() ==> !FuzzyMatch(x, t, a))
    {
      var t, a := NormalizeText(title), NormalizeText(author);
      var rows := Rows();
      if exists x :: x in rows && ExactMatch(x, t, a) {
        var x :| x in rows && ExactMatch(x, t, a);
        ExactIsFuzzy(x, t, a);
        return Some(x);
      }
      if exists x :: x in rows && FuzzyMatch(x, t, a) {
        var x :| x in rows && FuzzyMatch(x, t, a);
        return Some(x);
      }
      r := None;
    }

    /** Saving a record and then looking it up by its own title and author hits the exact branch. */
    method SaveThenLookup(m: Metadata) returns (r: Option<BookRecord>)
      requires Valid()
      modifies this
      ensures Valid()
      ensures r.Some? && r.value in Rows()
      ensures ExactMatch(r.value, NormalizeText(Get(m, "Title")), NormalizeText(Get(m, "Author")))
    {
      Save(m);
      assert ExactMatch(RecordOf(m), NormalizeText(Get(m, "Title")), NormalizeText(Get(m, "Author")));
      r := GetByTitleAuthor(Get(m, "Title"), Get(m, "Author"));
    }
  }
}
