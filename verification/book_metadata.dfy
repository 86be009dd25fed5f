/**
 * `BookMetadataService`'s deterministic parts: the Amazon cache key, the parsing of the
 * excluded-sources list, the choice of sources to search, the cover lists built from each
 * source's response, the de-duplication of covers across sources, the fallback order of
 * `get_book_details` and the normalisation of a scraped Amazon record. The searches
 * themselves (HTTP, the scraper) are parameters: what each source returned.
 */
module BookMetadata {
  import opened Wrappers
  import opened Text
  import AmazonCache

  // ---------------------------------------------------------------------------
  // generate_amazon_cache_key

  /** `generate_amazon_cache_key`: the normalised title and author joined by '|'. */
  function AmazonCacheKey(title: Option<string>, author: Option<string>): string {
    AmazonCache.NormalizeText(title) + "|" + AmazonCache.NormalizeText(author)
  }

  lemma NormalizedHasNoBar(s: string)
    requires AmazonCache.IsNormalized(s)
    ensures '|' !in s
  {
    forall i | 0 <= i < |s| ensures s[i] != '|' {
    }
  }

  /** The separator is found right after a left part that does not hold it. */
  lemma {:induction false} BarAt(x: string, y: string)
    requires '|' !in x
    ensures IndexOfChar(x + ['|'] + y, '|') == Some(|x|)
    decreases |x|
  {
    if x != [] {
      assert (x + ['|'] + y)[1..] == x[1..] + ['|'] + y;
      BarAt(x[1..], y);
    }
  }

  /** Joining by a separator that the left parts never hold can be undone. */
  lemma {:induction false} JoinedPartsEqual(x1: string, y1: string, x2: string, y2: string)
    requires '|' !in x1 && '|' !in x2
    requires x1 + ['|'] + y1 == x2 + ['|'] + y2
    ensures x1 == x2 && y1 == y2
  {
    var k1, k2 := x1 + ['|'] + y1, x2 + ['|'] + y2;
    BarAt(x1, y1);
    BarAt(x2, y2);
    assert x1 == k1[..|x1|] && x2 == k2[..|x2|];
    assert y1 == k1[|x1| + 1..] && y2 == k2[|x2| + 1..];
  }

  /**
   * Two books share a cache key exactly when their normalised titles and normalised
   * authors are equal: a normalised part never holds the '|' separator.
   */
  lemma AmazonCacheKeyInjective(t1: Option<string>, a1: Option<string>, t2: Option<string>, a2: Option<string>)
    ensures AmazonCacheKey(t1, a1) == AmazonCacheKey(t2, a2) <==>
            AmazonCache.NormalizeText(t1) == AmazonCache.NormalizeText(t2) &&
            AmazonCache.NormalizeText(a1) == AmazonCache.NormalizeText(a2)
  {
    var x1, y1 := AmazonCache.NormalizeText(t1), AmazonCache.NormalizeText(a1);
    var x2, y2 := AmazonCache.NormalizeText(t2), AmazonCache.NormalizeText(a2);
    AmazonCache.NormalizeTextIsNormalized(t1);
    AmazonCache.NormalizeTextIsNormalized(t2);
    NormalizedHasNoBar(x1);
    NormalizedHasNoBar(x2);
    if AmazonCacheKey(t1, a1) == AmazonCacheKey(t2, a2) {
      JoinedPartsEqual(x1, y1, x2, y2);
    }
  }

  /** Case, punctuation and spacing differences do not change the key. */
  lemma AmazonCacheKeyNormalizes(title: Option<string>, author: Option<string>)
    ensures AmazonCacheKey(Some(AmazonCache.NormalizeText(title)), Some(AmazonCache.NormalizeText(author))) ==
            AmazonCacheKey(title, author)
  {
    AmazonCache.NormalizeTextIdempotent(title);
    AmazonCache.NormalizeTextIdempotent(author);
  }

  // ---------------------------------------------------------------------------
  // get_cover_options: sources

  datatype Source = GoogleBooks | OpenLibrary | Amazon {
    /** The name a caller uses for the source. */
    function Name(): string {
      match this
      case GoogleBooks => "google_books"
      case OpenLibrary => "openlibrary"
      case Amazon => "amazon"
    }

    /** The position of the source in the "all" order. */
    function Rank(): nat {
      match this
      case GoogleBooks => 0
      case OpenLibrary => 1
      case Amazon => 2
    }
  }

  /** The source a name denotes, if any. */
  function Named(name: string): (r: Option<Source>)
    ensures r.Some? ==> r.value.Name() == name
    ensures r.None? ==> forall s: Source :: s.Name() != name
  {
    if name == "google_books" then Some(GoogleBooks)
    else if name == "openlibrary" then Some(OpenLibrary)
    else if name == "amazon" then Some(Amazon)
    else None
  }

  /** One part trimmed, or nothing when it is blank. */
  function TrimmedPart(p: string): (r: seq<string>)
    ensures forall x :: x in r ==> x != [] && NoOuterSpace(x)
  {
    var t := Strip(p);
    StripNoOuterSpace(p);
    if t != [] then [t] else []
  }

  /** Trimmed, non-empty parts of a comma-separated list. */
  function NonEmptyParts(parts: seq<string>): (r: seq<string>)
    ensures forall x :: x in r ==> x != [] && NoOuterSpace(x)
  {
    if parts == [] then [] else TrimmedPart(parts[0]) + NonEmptyParts(parts[1..])
  }

  /** Trimming parts without a comma leaves no comma. */
  lemma {:induction false} NonEmptyPartsNoComma(parts: seq<string>)
    requires forall p :: p in parts ==> ',' !in p
    ensures forall x :: x in NonEmptyParts(parts) ==> ',' !in x
  {
    if parts != [] {
      StripChars(parts[0]);
      NonEmptyPartsNoComma(parts[1..]);
    }
  }

  /** The kept parts are exactly the non-blank parts, trimmed. */
  lemma {:induction false} NonEmptyPartsMembers(parts: seq<string>, x: string)
    ensures x in NonEmptyParts(parts) <==> exists p :: p in parts && Strip(p) == x && x != []
  {
    if parts != [] {
      NonEmptyPartsMembers(parts[1..], x);
      assert forall p :: p in parts <==> p == parts[0] || p in parts[1..];
    }
  }

  /** The lower-cased forms of some names. */
  function LowerSet(names: seq<string>): set<string> {
    set p | p in names :: Lower(p)
  }

  lemma LowerSetAppend(a: seq<string>, b: seq<string>)
    ensures LowerSet(a + b) == LowerSet(a) + LowerSet(b)
  {
    assert forall p :: p in a + b <==> p in a || p in b;
  }

  lemma LowerSetSingle(x: string)
    ensures LowerSet([x]) == {Lower(x)}
  {
    assert forall p :: p in [x] <==> p == x;
  }

  /** `excluded_sources`: the trimmed, lower-cased, non-empty parts of `exclude_sources`. */
  function ParseExcluded(exclude: string): (r: set<string>)
    ensures forall x :: x in r ==> x != [] && NoOuterSpace(x)
  {
    if exclude == [] then {}
    else
      var r := LowerSet(NonEmptyParts(Split(exclude, ',')));
      assert forall x :: x in r ==> x != [] && NoOuterSpace(x) by {
        forall x | x in r ensures x != [] && NoOuterSpace(x) {
          var p :| p in NonEmptyParts(Split(exclude, ',')) && Lower(p) == x;
          assert IsSpace(Lower(p)[0]) == IsSpace(p[0]);
        }
      }
      r
  }

  /** The excluded names are exactly the non-blank comma-separated parts, trimmed and lower-cased. */
  lemma ParseExcludedMembers(exclude: string, x: string)
    ensures x in ParseExcluded(exclude) <==>
            exists p :: p in Split(exclude, ',') && Strip(p) != [] && Lower(Strip(p)) == x
  {
    if exclude == [] {
      assert Split(exclude, ',') == [[]];
    } else {
      var ps := Split(exclude, ',');
      forall y ensures y in NonEmptyParts(ps) <==> exists p :: p in ps && Strip(p) == y && y != [] {
        NonEmptyPartsMembers(ps, y);
      }
    }
  }

  /** A single name is excluded in lower case, whatever case the caller wrote it in. */
  lemma ParseExcludedSingle(name: string)
    requires ',' !in name && Strip(name) != []
    ensures ParseExcluded(name) == {Lower(Strip(name))}
  {
    assert Split(name, ',') == [name];
    assert NonEmptyParts([name]) == TrimmedPart(name) + [];
    LowerSetSingle(Strip(name));
  }

  /** One more comma-separated name adds exactly its trimmed, lower-cased form, if non-empty. */
  lemma ParseExcludedAppend(exclude: string, name: string)
    requires ',' !in name
    ensures ParseExcluded(exclude + [','] + name) ==
            ParseExcluded(exclude) + (if Strip(name) != [] then {Lower(Strip(name))} else {})
  {
    var ps := Split(exclude, ',');
    SplitAppend(exclude, name);
    NonEmptyPartsAppend(ps, name);
    NonEmptyPartsSingle(name);
    LowerSetAppend(NonEmptyParts(ps), TrimmedPart(name));
    LowerSetTrimmed(name);
    ParseExcludedOfParts(exclude);
    ParseExcludedOfParts(exclude + [','] + name);
  }

  /** The empty setting splits into one blank part, so it too is read part by part. */
  lemma ParseExcludedOfParts(exclude: string)
    ensures ParseExcluded(exclude) == LowerSet(NonEmptyParts(Split(exclude, ',')))
  {
    if exclude == [] {
      assert Split(exclude, ',') == [[]];
      NonEmptyPartsSingle([]);
      assert Strip([]) == [];
    }
  }

  lemma NonEmptyPartsSingle(name: string)
    ensures NonEmptyParts([name]) == TrimmedPart(name)
  {
    assert NonEmptyParts([name]) == TrimmedPart(name) + NonEmptyParts([]);
  }

  lemma LowerSetTrimmed(name: string)
    ensures LowerSet(TrimmedPart(name)) == if Strip(name) != [] then {Lower(Strip(name))} else {}
  {
    if Strip(name) != [] {
      LowerSetSingle(Strip(name));
    }
  }

  lemma {:induction false} SplitAppend(a: string, b: string)
    requires ',' !in b
    ensures Split(a + [','] + b, ',') == Split(a, ',') + [b]
    decreases |a|
  {
    var s := a + [','] + b;
    assert Split(b, ',') == [b];
    match IndexOfChar(a, ',')
    case None =>
      assert s[..|a|] == a;
      IndexOfCharIs(s, ',', |a|);
      assert s[|a| + 1..] == b;
      assert Split(s, ',') == [a] + Split(b, ',');
    case Some(i) =>
      assert s[..i] == a[..i];
      IndexOfCharIs(s, ',', i);
      assert s[i + 1..] == a[i + 1..] + [','] + b;
      SplitAppend(a[i + 1..], b);
      assert Split(s, ',') == [a[..i]] + Split(a[i + 1..] + [','] + b, ',');
      assert Split(a, ',') == [a[..i]] + Split(a[i + 1..], ',');
  }

  lemma {:induction false} NonEmptyPartsAppend(parts: seq<string>, last: string)
    ensures NonEmptyParts(parts + [last]) == NonEmptyParts(parts) + NonEmptyParts([last])
    decreases |parts|
  {
    if parts == [] {
      assert parts + [last] == [last];
    } else {
      assert (parts + [last])[1..] == parts[1..] + [last];
      NonEmptyPartsAppend(parts[1..], last);
    }
  }

  /**
   * The sources `get_cover_options` searches, in order: for "all" the three minus the
   * excluded ones (and Amazon when the scraper is unavailable); a named, non-excluded source
   * alone (nothing for Amazon without the scraper); otherwise Google Books, else OpenLibrary,
   * whichever is first not excluded.
   */
  function SelectSources(source: string, excluded: set<string>, amazonAvailable: bool): (r: seq<Source>)
    ensures forall s :: s in r ==> s.Name() !in excluded && (s == Amazon ==> amazonAvailable)
    ensures forall i, j :: 0 <= i < j < |r| ==> r[i].Rank() < r[j].Rank()
    ensures source == "all" ==> forall s :: s in r <==> s.Name() !in excluded && (s == Amazon ==> amazonAvailable)
    ensures source != "all" ==> |r| <= 1
    ensures source != "amazon" && Amazon in r ==> source == "all"
    ensures source == "amazon" && "amazon" !in excluded ==> r == (if amazonAvailable then [Amazon] else [])
    ensures source != "all" && (Named(source).None? || Named(source).value.Name() in excluded) ==>
              r == (if "google_books" !in excluded then [GoogleBooks]
                    else if "openlibrary" !in excluded then [OpenLibrary] else [])
  {
    if source == "all" then
      (if "google_books" !in excluded then [GoogleBooks] else []) +
      (if "openlibrary" !in excluded then [OpenLibrary] else []) +
      (if "amazon" !in excluded && amazonAvailable then [Amazon] else [])
    else if source == "google_books" && "google_books" !in excluded then [GoogleBooks]
    else if source == "openlibrary" && "openlibrary" !in excluded then [OpenLibrary]
    else if source == "amazon" && "amazon" !in excluded then (if amazonAvailable then [Amazon] else [])
    else if "google_books" !in excluded then [GoogleBooks]
    else if "openlibrary" !in excluded then [OpenLibrary]
    else []
  }

  /** A named source that is not excluded is searched alone. */
  lemma SelectNamedSource(s: Source, excluded: set<string>, amazonAvailable: bool)
    requires s.Name() !in excluded && (s == Amazon ==> amazonAvailable)
    ensures SelectSources(s.Name(), excluded, amazonAvailable) == [s]
  {
  }

  // ---------------------------------------------------------------------------
  // Values of the JSON-like records and their truthiness

  /** A value of a response dictionary: None, a string, a number or a list of strings. */
  datatype Value = Null | Str(text: string) | Num(n: int) | StrList(items: seq<string>)

  /** Python truthiness: None, "", 0 and [] are false. */
  predicate Truthy(v: Value) {
    match v
    case Null => false
    case Str(t) => t != []
    case Num(n) => n != 0
    case StrList(xs) => xs != []
  }

  /** One cover option: its size label, its URL (as the response held it) and its source. */
  datatype Cover = Cover(size: string, url: Value, source: Source)

  // ---------------------------------------------------------------------------
  // _normalize_google_books_response: covers

  /** The parameters asking Google Books for the plain front cover. */
  const GbsParams: string := "printsec=frontcover&img=1&zoom=1&source=gbs_api"

  /** The image-link sizes, largest first. */
  const GoogleSizes: seq<string> := ["extraLarge", "large", "medium", "small", "thumbnail", "smallThumbnail"]

  /** The three `edge=curl` removals, applied only when the URL mentions it. */
  function WithoutCurl(u: string): string {
    if Contains(u, "edge=curl") then ReplaceAll(ReplaceAll(ReplaceAll(u, "&edge=curl", ""), "?edge=curl&", "?"), "?edge=curl", "")
    else u
  }

  /** A Google Books image link made https, without the curl effect, with the cover parameters added. */
  function GoogleCoverUrl(link: string): string {
    var u := WithoutCurl(ReplaceAll(link, "http://", "https://"));
    u + (if '?' in u then "&" else "?") + GbsParams
  }

  /** The result always carries a query string ending in the cover parameters. */
  lemma GoogleCoverUrlQuery(link: string)
    ensures '?' in GoogleCoverUrl(link) && EndsWith(GoogleCoverUrl(link), GbsParams)
  {
    var u := WithoutCurl(ReplaceAll(link, "http://", "https://"));
    var sep := if '?' in u then "&" else "?";
    var r := u + sep + GbsParams;
    assert r[|u|] == sep[0];
    if '?' in u {
      var k :| 0 <= k < |u| && u[k] == '?';
      assert r[k] == '?';
    }
    assert r[|r| - |GbsParams|..] == GbsParams;
  }

  /** A link already https and without `edge=curl` only gains the parameters. */
  lemma GoogleCoverUrlPlain(link: string)
    requires !Contains(link, "http://") && !Contains(link, "edge=curl")
    ensures GoogleCoverUrl(link) == link + (if '?' in link then "&" else "?") + GbsParams
  {
    ReplaceAllAbsent(link, "http://", "https://");
  }

  /** `image_links` filtered to the sizes present, in the given order. */
  function PresentSizes(sizes: seq<string>, links: map<string, string>): (r: seq<string>)
    ensures forall x :: x in r <==> x in sizes && x in links
    ensures |r| <= |sizes|
  {
    if sizes == [] then []
    else
      var init := sizes[..|sizes| - 1];
      var last := sizes[|sizes| - 1];
      assert sizes == init + [last];
      PresentSizes(init, links) + (if last in links then [last] else [])
  }

  predicate Distinct(xs: seq<string>) {
    forall i, j :: 0 <= i < j < |xs| ==> xs[i] != xs[j]
  }

  /** Distinct sizes stay distinct after filtering. */
  lemma {:induction false} PresentSizesDistinct(sizes: seq<string>, links: map<string, string>)
    requires Distinct(sizes)
    ensures Distinct(PresentSizes(sizes, links))
    decreases |sizes|
  {
    if sizes != [] {
      var init := sizes[..|sizes| - 1];
      var last := sizes[|sizes| - 1];
      PresentSizesDistinct(init, links);
      assert last !in init by {
        forall k | 0 <= k < |init| ensures init[k] != last {
          assert init[k] == sizes[k];
        }
      }
      var p := PresentSizes(init, links);
      var r := PresentSizes(sizes, links);
      assert r == p + (if last in links then [last] else []);
      assert last !in p;
      forall i, j | 0 <= i < j < |r| ensures r[i] != r[j] {
        if j == |p| {
          assert r[i] == p[i] && p[i] in p && r[j] == last;
        } else {
          assert r[i] == p[i] && r[j] == p[j];
        }
      }
    }
  }

  /** Filtering one more size appends it when present. */
  lemma PresentSizesStep(sizes: seq<string>, i: nat, links: map<string, string>)
    requires i < |sizes|
    ensures PresentSizes(sizes[..i + 1], links) ==
            PresentSizes(sizes[..i], links) + (if sizes[i] in links then [sizes[i]] else [])
  {
    assert sizes[..i + 1][..i] == sizes[..i];
  }

  function GoogleCover(size: string, links: map<string, string>): Cover
    requires size in links
  {
    Cover(size, Str(GoogleCoverUrl(links[size])), GoogleBooks)
  }

  /** One cover per size of `sizes`, in that order, each with the rewritten URL of its link. */
  predicate CoversOf(covers: seq<Cover>, sizes: seq<string>, links: map<string, string>) {
    |covers| == |sizes| && forall i :: 0 <= i < |covers| ==> sizes[i] in links && covers[i] == GoogleCover(sizes[i], links)
  }

  lemma CoversOfAppend(covers: seq<Cover>, sizes: seq<string>, links: map<string, string>, size: string)
    requires CoversOf(covers, sizes, links) && size in links
    ensures CoversOf(covers + [GoogleCover(size, links)], sizes + [size], links)
  {
  }

  /** A cover list built from the present sizes has one cover per present size, each size once. */
  lemma GoogleCoverSizes(links: map<string, string>, covers: seq<Cover>)
    requires CoversOf(covers, PresentSizes(GoogleSizes, links), links)
    ensures forall i, j :: 0 <= i < j < |covers| ==> covers[i].size != covers[j].size
    ensures forall size :: size in links && size in GoogleSizes <==> exists i :: 0 <= i < |covers| && covers[i].size == size
  {
    var sizes := PresentSizes(GoogleSizes, links);
    PresentSizesDistinct(GoogleSizes, links);
    forall size | size in links && size in GoogleSizes ensures exists i :: 0 <= i < |covers| && covers[i].size == size {
      var i :| 0 <= i < |sizes| && sizes[i] == size;
      assert covers[i].size == size;
    }
    forall size | exists i :: 0 <= i < |covers| && covers[i].size == size ensures size in links && size in GoogleSizes {
      var i :| 0 <= i < |covers| && covers[i].size == size;
      assert sizes[i] in sizes;
    }
  }

  /**
   * The cover loop of `_normalize_google_books_response`: one cover per size present in
   * `imageLinks`, in the order extraLarge ... smallThumbnail, each with its rewritten URL.
   */
  method GoogleCovers(links: map<string, string>) returns (covers: seq<Cover>)
    ensures CoversOf(covers, PresentSizes(GoogleSizes, links), links)
    ensures forall i, j :: 0 <= i < j < |covers| ==> covers[i].size != covers[j].size
    ensures forall size :: size in links && size in GoogleSizes <==> exists i :: 0 <= i < |covers| && covers[i].size == size
  {
    covers := CoversFor(GoogleSizes, links);
    GoogleCoverSizes(links, covers);
  }

  /** The loop itself, over the sizes in the order they are tried. */
  method CoversFor(sizes: seq<string>, links: map<string, string>) returns (covers: seq<Cover>)
    ensures CoversOf(covers, PresentSizes(sizes, links), links)
  {
    covers := [];
    for i := 0 to |sizes|
      invariant CoversOf(covers, PresentSizes(sizes[..i], links), links)
    {
      var size := sizes[i];
      PresentSizesStep(sizes, i, links);
      if size in links {
        CoversOfAppend(covers, PresentSizes(sizes[..i], links), links, size);
        covers := covers + [GoogleCover(size, links)];
      } else {
        assert PresentSizes(sizes[..i], links) + [] == PresentSizes(sizes[..i], links);
      }
    }
    assert sizes[..|sizes|] == sizes;
  }

  // ---------------------------------------------------------------------------
  // _normalize_openlibrary_response: covers

  const OpenLibraryCoverBase: string := "https://covers.openlibrary.org/b/id/"

  /** The cover URL of an OpenLibrary cover id in one size letter. */
  function OpenLibraryCoverUrl(id: int, size: char): string {
    OpenLibraryCoverBase + IntToString(id) + "-" + [size] + ".jpg"
  }

  /** The size letter sits just after the id and its dash. */
  lemma OpenLibraryCoverUrlSize(id: int, size: char)
    ensures var k := |OpenLibraryCoverBase| + |IntToString(id)| + 1;
            k < |OpenLibraryCoverUrl(id, size)| && OpenLibraryCoverUrl(id, size)[k] == size
  {
  }

  /** Three covers, large to small, when the record has a non-zero `cover_i`; none otherwise. */
  function OpenLibraryCovers(coverI: Option<int>): (r: seq<Cover>)
    ensures coverI.None? || coverI.value == 0 ==> r == []
    ensures coverI.Some? && coverI.value != 0 ==>
              |r| == 3 && r[0].size == "l" && r[1].size == "m" && r[2].size == "s"
    ensures forall i :: 0 <= i < |r| ==> r[i].source == OpenLibrary && Truthy(r[i].url)
  {
    if coverI.None? || coverI.value == 0 then []
    else
      var id := coverI.value;
      [Cover("l", Str(OpenLibraryCoverUrl(id, 'L')), OpenLibrary),
       Cover("m", Str(OpenLibraryCoverUrl(id, 'M')), OpenLibrary),
       Cover("s", Str(OpenLibraryCoverUrl(id, 'S')), OpenLibrary)]
  }

  /** The three OpenLibrary URLs differ, so de-duplication keeps all three. */
  lemma OpenLibraryCoversDistinct(coverI: Option<int>)
    ensures var r := OpenLibraryCovers(coverI); forall i, j :: 0 <= i < j < |r| ==> r[i].url != r[j].url
  {
    if coverI.Some? && coverI.value != 0 {
      var id := coverI.value;
      var r := OpenLibraryCovers(coverI);
      OpenLibraryCoverUrlsDiffer(id, 'L', 'M');
      OpenLibraryCoverUrlsDiffer(id, 'L', 'S');
      OpenLibraryCoverUrlsDiffer(id, 'M', 'S');
      assert r[0].url != r[1].url && r[0].url != r[2].url && r[1].url != r[2].url;
    }
  }

  lemma OpenLibraryCoverUrlsDiffer(id: int, a: char, b: char)
    requires a != b
    ensures OpenLibraryCoverUrl(id, a) != OpenLibraryCoverUrl(id, b)
  {
    OpenLibraryCoverUrlSize(id, a);
    OpenLibraryCoverUrlSize(id, b);
  }

  // ---------------------------------------------------------------------------
  // get_cover_options: de-duplication across sources

  function Urls(covers: seq<Cover>): set<Value> {
    set c | c in covers :: c.url
  }

  /** A valid cover list: every URL truthy and no URL twice. */
  predicate ValidCovers(covers: seq<Cover>) {
    && (forall i :: 0 <= i < |covers| ==> Truthy(covers[i].url))
    && (forall i, j :: 0 <= i < j < |covers| ==> covers[i].url != covers[j].url)
  }

  lemma UrlsAppend(covers: seq<Cover>, c: Cover)
    ensures Urls(covers + [c]) == Urls(covers) + {c.url}
  {
    assert forall d :: d in covers + [c] <==> d in covers || d == c;
  }

  /** One source's covers added to the list: a cover is kept when its URL is truthy and new. */
  function AddCovers(acc: seq<Cover>, incoming: seq<Cover>): seq<Cover>
    decreases |incoming|
  {
    if incoming == [] then acc
    else
      var c := incoming[0];
      AddCovers(if Truthy(c.url) && c.url !in Urls(acc) then acc + [c] else acc, incoming[1..])
  }

  /**
   * Adding covers keeps what was there as a prefix, keeps the list valid, takes only covers
   * from `incoming`, and leaves no truthy incoming URL out.
   */
  lemma {:induction false} AddCoversProperties(acc: seq<Cover>, incoming: seq<Cover>)
    requires ValidCovers(acc)
    ensures var r := AddCovers(acc, incoming);
            && |acc| <= |r| && r[..|acc|] == acc
            && ValidCovers(r)
            && (forall c :: c in r ==> c in acc || c in incoming)
            && (forall c :: c in incoming && Truthy(c.url) ==> c.url in Urls(r))
  {
    AddCoversKeepsPrefix(acc, incoming);
    AddCoversValid(acc, incoming);
    AddCoversFrom(acc, incoming);
    AddCoversComplete(acc, incoming);
  }

  /** The step of `AddCovers`: the list after the first incoming cover is considered. */
  function AddStep(acc: seq<Cover>, c: Cover): seq<Cover> {
    if Truthy(c.url) && c.url !in Urls(acc) then acc + [c] else acc
  }

  lemma AddStepValid(acc: seq<Cover>, c: Cover)
    requires ValidCovers(acc)
    ensures ValidCovers(AddStep(acc, c))
  {
    if Truthy(c.url) && c.url !in Urls(acc) {
      forall i | 0 <= i < |acc| ensures acc[i].url != c.url {
        assert acc[i] in acc;
      }
    }
  }

  lemma {:induction false} AddCoversValid(acc: seq<Cover>, incoming: seq<Cover>)
    requires ValidCovers(acc)
    ensures ValidCovers(AddCovers(acc, incoming))
    decreases |incoming|
  {
    if incoming != [] {
      AddStepValid(acc, incoming[0]);
      assert AddCovers(acc, incoming) == AddCovers(AddStep(acc, incoming[0]), incoming[1..]);
      AddCoversValid(AddStep(acc, incoming[0]), incoming[1..]);
    }
  }

  lemma {:induction false} AddCoversFrom(acc: seq<Cover>, incoming: seq<Cover>)
    ensures forall c :: c in AddCovers(acc, incoming) ==> c in acc || c in incoming
    decreases |incoming|
  {
    if incoming != [] {
      var next := AddStep(acc, incoming[0]);
      assert AddCovers(acc, incoming) == AddCovers(next, incoming[1..]);
      AddCoversFrom(next, incoming[1..]);
      assert forall d :: d in next ==> d in acc || d == incoming[0];
      assert forall d :: d in incoming[1..] ==> d in incoming;
    }
  }

  /** A URL already listed stays listed. */
  lemma AddCoversKeepsUrl(acc: seq<Cover>, incoming: seq<Cover>, u: Value)
    requires u in Urls(acc)
    ensures u in Urls(AddCovers(acc, incoming))
  {
    AddCoversKeepsPrefix(acc, incoming);
    var r := AddCovers(acc, incoming);
    var d :| d in acc && d.url == u;
    var k :| 0 <= k < |acc| && acc[k] == d;
    assert r[k] == d;
  }

  lemma {:induction false} AddCoversComplete(acc: seq<Cover>, incoming: seq<Cover>)
    ensures forall c :: c in incoming && Truthy(c.url) ==> c.url in Urls(AddCovers(acc, incoming))
    decreases |incoming|
  {
    if incoming != [] {
      var c := incoming[0];
      var next := AddStep(acc, c);
      var r := AddCovers(next, incoming[1..]);
      assert AddCovers(acc, incoming) == r;
      AddCoversComplete(next, incoming[1..]);
      if Truthy(c.url) {
        if c.url !in Urls(acc) {
          UrlsAppend(acc, c);
        }
        assert c.url in Urls(next);
        AddCoversKeepsUrl(next, incoming[1..], c.url);
      }
      assert forall d :: d in incoming ==> d == c || d in incoming[1..];
    }
  }

  /**
   * The first truthy cover for a URL not yet listed is the one kept: a later cover with the
   * same URL, from the same source or another, never replaces it.
   */
  lemma {:induction false} AddCoversFirstWins(acc: seq<Cover>, incoming: seq<Cover>, k: nat)
    requires k < |incoming| && Truthy(incoming[k].url) && incoming[k].url !in Urls(acc)
    requires forall i :: 0 <= i < k ==> incoming[i].url != incoming[k].url
    ensures incoming[k] in AddCovers(acc, incoming)
    decreases k
  {
    var c := incoming[0];
    var next := if Truthy(c.url) && c.url !in Urls(acc) then acc + [c] else acc;
    if k == 0 {
      AddCoversKeepsPrefix(next, incoming[1..]);
      assert next[|acc|] == c;
      var r := AddCovers(next, incoming[1..]);
      assert r[|acc|] == next[|acc|];
    } else {
      assert incoming[k].url !in Urls(next) by {
        if Truthy(c.url) && c.url !in Urls(acc) {
          UrlsAppend(acc, c);
        }
      }
      assert incoming[1..][k - 1] == incoming[k];
      AddCoversFirstWins(next, incoming[1..], k - 1);
    }
  }

  lemma {:induction false} AddCoversKeepsPrefix(acc: seq<Cover>, incoming: seq<Cover>)
    ensures var r := AddCovers(acc, incoming); |acc| <= |r| && r[..|acc|] == acc
    decreases |incoming|
  {
    if incoming != [] {
      var c := incoming[0];
      var next := if Truthy(c.url) && c.url !in Urls(acc) then acc + [c] else acc;
      AddCoversKeepsPrefix(next, incoming[1..]);
      var r := AddCovers(next, incoming[1..]);
      assert r[..|acc|] == r[..|next|][..|acc|];
    }
  }

  /** The covers of each source in turn, added to the list. */
  function Collect(acc: seq<Cover>, sources: seq<Source>, found: Source -> seq<Cover>): seq<Cover>
    decreases |sources|
  {
    if sources == [] then acc else Collect(AddCovers(acc, found(sources[0])), sources[1..], found)
  }

  /**
   * Collecting over the sources keeps the list valid, takes only covers some searched source
   * returned, and lists every truthy URL a searched source returned.
   */
  lemma {:induction false} CollectProperties(acc: seq<Cover>, sources: seq<Source>, found: Source -> seq<Cover>)
    requires ValidCovers(acc)
    ensures var r := Collect(acc, sources, found);
            && ValidCovers(r)
            && |acc| <= |r| && r[..|acc|] == acc
            && (forall c :: c in r ==> c in acc || exists s :: s in sources && c in found(s))
            && (forall s, c :: s in sources && c in found(s) && Truthy(c.url) ==> c.url in Urls(r))
    decreases |sources|
  {
    if sources != [] {
      var next := AddCovers(acc, found(sources[0]));
      AddCoversProperties(acc, found(sources[0]));
      CollectProperties(next, sources[1..], found);
      var r := Collect(next, sources[1..], found);
      assert r[..|acc|] == r[..|next|][..|acc|];
      forall s, c | s in sources && c in found(s) && Truthy(c.url) ensures c.url in Urls(r) {
        if s != sources[0] {
          assert s in sources[1..];
        } else {
          var d :| d in next && d.url == c.url;
          var k :| 0 <= k < |next| && next[k] == d;
          assert r[k] == d;
        }
      }
      forall c | c in r ensures c in acc || exists s :: s in sources && c in found(s) {
        if c in next && c !in acc {
          assert sources[0] in sources && c in found(sources[0]);
        } else if c !in next {
          var s :| s in sources[1..] && c in found(s);
          assert s in sources;
        }
      }
    }
  }

  /** The inner loop of `get_cover_options`: one source's covers checked against `existing_urls`. */
  method MergeCovers(all: seq<Cover>, incoming: seq<Cover>) returns (merged: seq<Cover>)
    ensures merged == AddCovers(all, incoming)
  {
    var existing := Urls(all);
    var newCovers: seq<Cover> := [];
    assert all + newCovers == all && incoming[0..] == incoming;
    for j := 0 to |incoming|
      invariant existing == Urls(all + newCovers)
      invariant AddCovers(all + newCovers, incoming[j..]) == AddCovers(all, incoming)
    {
      var c := incoming[j];
      assert incoming[j..][1..] == incoming[j + 1..];
      if Truthy(c.url) && c.url !in existing {
        UrlsAppend(all + newCovers, c);
        assert all + newCovers + [c] == all + (newCovers + [c]);
        newCovers := newCovers + [c];
        existing := existing + {c.url};
      }
    }
    assert incoming[|incoming|..] == [];
    merged := all + newCovers;
  }

  /** The outer loop of `get_cover_options`: every source to try, in order. */
  method CollectCovers(sources: seq<Source>, found: Source -> seq<Cover>) returns (all: seq<Cover>)
    ensures all == Collect([], sources, found)
    ensures ValidCovers(all)
  {
    all := [];
    for i := 0 to |sources|
      invariant Collect(all, sources[i..], found) == Collect([], sources, found)
    {
      assert sources[i..][1..] == sources[i + 1..];
      all := MergeCovers(all, found(sources[i]));
    }
    assert sources[|sources|..] == [];
    CollectProperties([], sources, found);
  }

  /**
   * `get_cover_options`: the covers of the selected sources, first-seen order, without
   * URL-less covers and without a URL twice. `found` gives the covers each source's search
   * returned (empty when it failed or found nothing).
   */
  method GetCoverOptions(source: string, exclude: string, amazonAvailable: bool, found: Source -> seq<Cover>)
    returns (covers: seq<Cover>)
    ensures covers == Collect([], SelectSources(source, ParseExcluded(exclude), amazonAvailable), found)
    ensures ValidCovers(covers)
  {
    var excluded := ParseExcluded(exclude);
    var sources := SelectSources(source, excluded, amazonAvailable);
    covers := CollectCovers(sources, found);
  }

  /** `get_cover_options_by_isbn`: Google Books then OpenLibrary, never Amazon. */
  method GetCoverOptionsByIsbn(found: Source -> seq<Cover>) returns (covers: seq<Cover>)
    ensures covers == Collect([], [GoogleBooks, OpenLibrary], found)
    ensures ValidCovers(covers)
    ensures forall c :: c in covers ==> c in found(GoogleBooks) || c in found(OpenLibrary)
  {
    covers := CollectCovers([GoogleBooks, OpenLibrary], found);
    CollectProperties([], [GoogleBooks, OpenLibrary], found);
  }

  // ---------------------------------------------------------------------------
  // get_book_details

  /** The two sources `get_book_details` may consult, in order. */
  function DetailsOrder(source: string): (r: seq<Source>)
    ensures |r| == 2 && r[0] != r[1] && GoogleBooks in r
    ensures Amazon in r <==> source == "amazon"
  {
    if source == "google_books" then [GoogleBooks, OpenLibrary]
    else if source == "amazon" then [Amazon, GoogleBooks]
    else [OpenLibrary, GoogleBooks]
  }

  /** The first source's result if not empty, else the second's (None stands for `{}`). */
  function GetBookDetails<T>(source: string, found: Source -> Option<T>): Option<T> {
    var order := DetailsOrder(source);
    if found(order[0]).Some? then found(order[0]) else found(order[1])
  }

  /**
   * The details come from one of the two sources in the order, the first one's whenever it
   * found something; nothing is found only when both came back empty.
   */
  lemma GetBookDetailsFallback<T>(source: string, found: Source -> Option<T>)
    ensures var order, r := DetailsOrder(source), GetBookDetails(source, found);
            && (r == found(order[0]) || r == found(order[1]))
            && (found(order[0]).Some? ==> r == found(order[0]))
            && (r.None? <==> found(order[0]).None? && found(order[1]).None?)
  {
  }

  /** Amazon is never consulted unless asked for: its result cannot change the outcome. */
  lemma GetBookDetailsIgnoresAmazon<T>(source: string, f: Source -> Option<T>, g: Source -> Option<T>)
    requires source != "amazon" && f(GoogleBooks) == g(GoogleBooks) && f(OpenLibrary) == g(OpenLibrary)
    ensures GetBookDetails(source, f) == GetBookDetails(source, g)
  {
  }

  // ---------------------------------------------------------------------------
  // _normalize_amazon_response

  /** `data.get(key)`: None for a missing key. */
  function Get(data: map<string, Value>, key: string): Value {
    if key in data then data[key] else Null
  }

  /** `data.get(cap) or data.get(low)`: the scraper's key if truthy, else the cached row's key. */
  function Either(data: map<string, Value>, cap: string, low: string): Value {
    if Truthy(Get(data, cap)) then Get(data, cap) else Get(data, low)
  }

  /** `x or default` */
  function OrElse(v: Value, default: Value): Value {
    if Truthy(v) then v else default
  }

  /** Python's `str` of a value (list elements are quoted, without escaping). */
  function PyStr(v: Value): string {
    match v
    case Null => "None"
    case Str(t) => t
    case Num(n) => IntToString(n)
    case StrList(xs) => if xs == [] then "[]" else "['" + Join(xs, "', '") + "']"
  }

  /** The page count: the first run of digits in `str(print_length)`, 0 without one. */
  function PageCount(printLength: Value): (n: nat)
    ensures !Truthy(printLength) ==> n == 0
    ensures (forall i :: 0 <= i < |PyStr(printLength)| ==> !IsDigit(PyStr(printLength)[i])) ==> n == 0
  {
    if !Truthy(printLength) then 0
    else
      var text := PyStr(printLength);
      match FirstDigitIndex(text)
      case None => 0
      case Some(i) => DigitsValue(DigitRun(text[i..], false))
  }

  /**
   * A print length such as "320 pages" or "Print length: 320 pages" gives the number of its
   * first digit run, whatever digit-free text comes before it.
   */
  lemma PageCountOfText(pre: string, digits: string, rest: string)
    requires forall i :: 0 <= i < |pre| ==> !IsDigit(pre[i])
    requires digits != [] && AllDigits(digits) && (rest == [] || !IsDigit(rest[0]))
    ensures PageCount(Str(pre + digits + rest)) == DigitsValue(digits)
  {
    var text := pre + (digits + rest);
    assert text == pre + digits + rest;
    FirstDigitAfter(pre, digits + rest);
    assert text[|pre|..] == digits + rest;
    DigitRunOf(digits, rest, false);
    assert Truthy(Str(text)) && PyStr(Str(text)) == text;
    assert DigitRun(text[|pre|..], false) == digits;
  }

  /** The first digit of digit-free text followed by a digit is the one after it. */
  lemma FirstDigitAfter(pre: string, x: string)
    requires forall i :: 0 <= i < |pre| ==> !IsDigit(pre[i])
    requires x != [] && IsDigit(x[0])
    ensures FirstDigitIndex(pre + x) == Some(|pre|)
  {
    var text := pre + x;
    assert IsDigit(text[|pre|]);
    forall i | 0 <= i < |pre| ensures !IsDigit(text[i]) {
      assert text[i] == pre[i];
    }
  }

  /** "Print length: 320 pages" gives 320. */
  lemma PageCountAfterLabel()
    ensures PageCount(Str("Print length: 320 pages")) == 320
  {
    assert "Print length: 320 pages" == "Print length: " + "320" + " pages";
    assert DigitsValue("320") == 320 by {
      assert "320"[..2] == "32" && "32"[..1] == "3";
    }
    PageCountOfText("Print length: ", "320", " pages");
  }

  /** A positive number of pages stored as a number reads back as itself. */
  lemma PageCountOfNumber(n: nat)
    requires n > 0
    ensures PageCount(Num(n)) == n
  {
    var d := NatToString(n);
    assert d + [] == d;
    assert [] + d + [] == d;
    PageCountOfText([], d, []);
  }

  /** The genres of a comma-separated string: its parts trimmed, empty ones dropped. */
  function Categories(genres: Value): (r: seq<string>)
    ensures genres.StrList? ==> r == genres.items
    ensures genres.Str? ==> forall g :: g in r ==> g != [] && NoOuterSpace(g) && ',' !in g
    ensures !genres.Str? && !genres.StrList? ==> r == []
  {
    match genres
    case StrList(xs) => xs
    case Str(t) =>
      NonEmptyPartsNoComma(Split(t, ','));
      NonEmptyParts(Split(t, ','))
    case _ => []
  }

  /** Every non-blank comma-separated part of a genres string is listed, trimmed. */
  lemma CategoriesComplete(t: string, p: string)
    requires p in Split(t, ',') && Strip(p) != []
    ensures Strip(p) in Categories(Str(t))
  {
    NonEmptyPartsMembers(Split(t, ','), Strip(p));
  }

  /** The normalised Amazon record (the fields of the returned dict that vary with the input). */
  datatype AmazonDetails = AmazonDetails(
    title: Value,
    authors: seq<Value>,
    publisher: Value,
    publishedDate: Value,
    description: Value,
    pageCount: nat,
    categories: seq<string>,
    language: Value,
    bookUrl: Value,
    covers: seq<Cover>,
    isbn: Value,
    kindleUnlimited: bool,
    series: Value,
    seriesIndex: Value,
    status: Value)

  /**
   * `_normalize_amazon_response`: None (the empty dict) for empty data; otherwise each field
   * taken from the scraper's capitalised key when truthy, else from the cached row's key.
   */
  function NormalizeAmazonResponse(data: map<string, Value>): (r: Option<AmazonDetails>)
    ensures r.None? <==> data == map[]
  {
    if data == map[] then None
    else
      var coverUrl := Either(data, "Cover URL", "cover_url");
      var author := Either(data, "Author", "author");
      var genres := Either(data, "Genres", "genres");
      Some(AmazonDetails(
        title := OrElse(Either(data, "Title", "title"), Str("")),
        authors := if Truthy(author) then [author] else [],
        publisher := OrElse(Either(data, "Publisher", "publisher"), Str("")),
        publishedDate := OrElse(Either(data, "Publication Date", "publication_date"), Str("")),
        description := OrElse(Either(data, "Book Description", "book_description"), Str("")),
        pageCount := PageCount(Either(data, "Print Length", "print_length")),
        categories := if Truthy(genres) then Categories(genres) else [],
        language := OrElse(Either(data, "Language", "language"), Str("")),
        bookUrl := OrElse(Either(data, "Book URL", "book_url"), Str("")),
        covers := if Truthy(coverUrl) then [Cover("large", coverUrl, Amazon)] else [],
        isbn := OrElse(Either(data, "ISBN", "isbn"), Str("")),
        kindleUnlimited := OrElse(Either(data, "isKindleUnlimited", "is_kindle_unlimited"), Str("NO")) == Str("YES"),
        series := OrElse(Either(data, "Series", "series"), Str("")),
        seriesIndex := Either(data, "Series Index", "series_index"),
        status := OrElse(Either(data, "Status", "status"), Str(""))))
  }

  /**
   * A text field prefers the scraper's key, falls back to the cached row's key, and is ""
   * when neither is truthy (shown for the title; every text field is built the same way).
   */
  lemma AmazonTitleField(data: map<string, Value>)
    requires data != map[]
    ensures var t := NormalizeAmazonResponse(data).value.title;
            && (Truthy(Get(data, "Title")) ==> t == data["Title"])
            && (!Truthy(Get(data, "Title")) && Truthy(Get(data, "title")) ==> t == data["title"])
            && (!Truthy(Get(data, "Title")) && !Truthy(Get(data, "title")) ==> t == Str(""))
  {
  }

  /** Kindle Unlimited is true exactly when the chosen flag is the string "YES". */
  lemma AmazonKindleUnlimited(data: map<string, Value>)
    requires data != map[]
    ensures NormalizeAmazonResponse(data).value.kindleUnlimited <==>
            Get(data, "isKindleUnlimited") == Str("YES") ||
            (!Truthy(Get(data, "isKindleUnlimited")) && Get(data, "is_kindle_unlimited") == Str("YES"))
  {
  }

  /** At most one cover, labelled large, and exactly when a cover URL is given. */
  lemma AmazonCovers(data: map<string, Value>)
    requires data != map[]
    ensures var c := NormalizeAmazonResponse(data).value.covers;
            && |c| <= 1
            && (|c| == 1 <==> Truthy(Get(data, "Cover URL")) || Truthy(Get(data, "cover_url")))
            && (|c| == 1 ==> c[0].size == "large" && c[0].source == Amazon && Truthy(c[0].url))
  {
  }
}
