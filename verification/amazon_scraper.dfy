/**
 * The text handling of the Amazon scraper: tag stripping, the search query, genre cleaning
 * and de-duplication, the review count, the label-to-field fill of the metadata, and the
 * argument check of `scrape_amazon_book`. Page navigation and element lookup are not part
 * of this model; the texts they would produce are parameters.
 */
module AmazonScraper {
  import opened Wrappers
  import opened Text

  // ---------------------------------------------------------------------------
  // strip_html_tags

  /**
   * Where the tag starting at `s[0] == '<'` ends: the first '>' after it, provided at least
   * one character lies between (`<[^>]+>`).
   */
  function TagEnd(s: string): (r: Option<nat>)
    requires s != [] && s[0] == '<'
    ensures r.Some? ==> 2 <= r.value < |s| && s[r.value] == '>' && '>' !in s[1..r.value]
    ensures r.None? ==> '>' !in s[1..] || s[1] == '>'
  {
    match IndexOfChar(s[1..], '>')
    case None => None
    case Some(k) => if k >= 1 then Some(k + 1) else None
  }

  /** `re.sub(r"<[^>]+>", "", s)`: removes every tag, scanning left to right. */
  function RemoveTags(s: string): (r: string)
    ensures |r| <= |s|
    decreases |s|
  {
    if s == [] then []
    else if s[0] == '<' && TagEnd(s).Some? then RemoveTags(s[TagEnd(s).value + 1..])
    else [s[0]] + RemoveTags(s[1..])
  }

  /** `s[i..j + 1]` is a tag: '<', at least one character that is not '>', then '>'. */
  predicate TagAt(s: string, i: int, j: int) {
    0 <= i && i + 1 < j < |s| && s[i] == '<' && s[j] == '>' && '>' !in s[i + 1..j]
  }

  /** No tag is left anywhere in `s`. */
  predicate NoTags(s: string) {
    forall i, j {:trigger TagAt(s, i, j)} :: 0 <= i < j < |s| ==> !TagAt(s, i, j)
  }

  /** `strip_html_tags` */
  function StripHtmlTags(text: string): string {
    Strip(RemoveTags(text))
  }

  lemma {:induction false} RemoveTagsChars(s: string)
    ensures forall c :: c in RemoveTags(s) ==> c in s
    decreases |s|
  {
    if s == [] {
    } else if s[0] == '<' && TagEnd(s).Some? {
      var t := s[TagEnd(s).value + 1..];
      RemoveTagsChars(t);
      forall c | c in t ensures c in s {
        var k :| 0 <= k < |t| && t[k] == c;
        assert s[TagEnd(s).value + 1 + k] == c;
      }
    } else {
      RemoveTagsChars(s[1..]);
    }
  }

  /** A text with no tags keeps having none after a character is put in front, unless that character opens one. */
  lemma ConsNoTags(c: char, t: string)
    requires NoTags(t)
    requires c == '<' ==> '>' !in t || (t != [] && t[0] == '>')
    ensures NoTags([c] + t)
  {
    var s := [c] + t;
    forall i, j | 0 <= i && i + 1 < j < |s| && s[i] == '<' && s[j] == '>'
      ensures '>' in s[i + 1..j]
    {
      if i == 0 {
        assert t[j - 1] == '>';
        assert s[1] == '>';
        assert s[1] in s[i + 1..j];
      } else {
        assert !TagAt(t, i - 1, j - 1);
        assert s[i + 1..j] == t[i..j - 1];
      }
    }
    forall i, j | 0 <= i < j < |s|
      ensures !TagAt(s, i, j)
    {
    }
  }

  /** What `re.sub(r"<[^>]+>", "", _)` leaves holds no tag. */
  lemma {:induction false} RemoveTagsNoTags(s: string)
    ensures NoTags(RemoveTags(s))
    decreases |s|
  {
    if s == [] {
    } else if s[0] == '<' && TagEnd(s).Some? {
      RemoveTagsNoTags(s[TagEnd(s).value + 1..]);
    } else {
      var t := RemoveTags(s[1..]);
      RemoveTagsNoTags(s[1..]);
      if s[0] == '<' {
        RemoveTagsChars(s[1..]);
        if '>' in s[1..] {
          assert s[1] == '>';
          assert t[0] == '>';
        }
      }
      ConsNoTags(s[0], t);
    }
  }

  lemma SliceNoTags(s: string, a: nat, b: nat)
    requires NoTags(s) && a <= b <= |s|
    ensures NoTags(s[a..b])
  {
    var u := s[a..b];
    forall i, j | 0 <= i && i + 1 < j < |u| && u[i] == '<' && u[j] == '>'
      ensures '>' in u[i + 1..j]
    {
      assert s[a + i] == '<' && s[a + j] == '>';
      assert !TagAt(s, a + i, a + j);
      var k :| a + i + 1 <= k < a + j && s[k] == '>';
      assert u[i + 1..j][k - a - i - 1] == '>';
    }
    forall i, j | 0 <= i < j < |u|
      ensures !TagAt(u, i, j)
    {
    }
  }

  lemma NoTagsNoTagEnd(s: string)
    requires NoTags(s) && s != [] && s[0] == '<'
    ensures TagEnd(s).None?
  {
    var e := TagEnd(s);
    assert !TagAt(s, 0, if e.Some? then e.value else 1);
  }

  /** Text without tags is left alone. */
  lemma {:induction false} RemoveTagsIdentity(s: string)
    requires NoTags(s)
    ensures RemoveTags(s) == s
    decreases |s|
  {
    if s != [] {
      if s[0] == '<' {
        NoTagsNoTagEnd(s);
      }
      SliceNoTags(s, 1, |s|);
      assert s[1..|s|] == s[1..];
      RemoveTagsIdentity(s[1..]);
      assert RemoveTags(s) == [s[0]] + RemoveTags(s[1..]);
    }
  }

  /** `strip_html_tags` leaves no tag. */
  lemma StripHtmlTagsNoTags(text: string)
    ensures NoTags(StripHtmlTags(text))
  {
    var r := RemoveTags(text);
    RemoveTagsNoTags(text);
    StripIsSlice(r);
    SliceNoTags(r, StripOffset(r), StripOffset(r) + |Strip(r)|);
  }

  /** Applying `strip_html_tags` twice changes nothing more. */
  lemma StripHtmlTagsIdempotent(text: string)
    ensures StripHtmlTags(StripHtmlTags(text)) == StripHtmlTags(text)
  {
    var t := StripHtmlTags(text);
    StripHtmlTagsNoTags(text);
    RemoveTagsIdentity(t);
    StripIdentity(t);
  }

  /** A leading tag is dropped and the scan goes on after it. */
  lemma RemoveLeadingTag(name: string, rest: string)
    requires name != [] && '>' !in name
    ensures RemoveTags("<" + name + ">" + rest) == RemoveTags(rest)
  {
    var s := "<" + name + ">" + rest;
    assert s[1..] == name + ">" + rest;
    assert (name + ">" + rest)[|name|] == '>';
    assert (name + ">" + rest)[..|name|] == name;
    assert TagEnd(s) == Some(|name| + 1);
    assert s[|name| + 2..] == rest;
  }

  // ---------------------------------------------------------------------------
  // build_amazon_query

  /** `clean`: punctuation removed, stripped, whitespace runs made one space. */
  function Clean(text: string): string {
    CollapseSpaces(Strip(KeepWordAndSpace(text)))
  }

  /** `clean` leaves only word characters and spaces. */
  lemma CleanChars(text: string)
    ensures forall c :: c in Clean(text) ==> IsWordChar(c) || c == ' '
  {
    var a := KeepWordAndSpace(text);
    var b := Strip(a);
    CollapseChars(b);
    StripChars(a);
    forall c | c in a ensures IsWordChar(c) || IsSpace(c) {
      var k :| 0 <= k < |a| && a[k] == c;
    }
  }

  /** `clean` leaves no whitespace at either end and single spaces inside. */
  lemma CleanShape(text: string)
    ensures NoOuterSpace(Clean(text)) && SingleSpaced(Clean(text))
  {
    var b := Strip(KeepWordAndSpace(text));
    assert NoOuterSpace(b);
    CollapseShape(b);
  }

  /** The query before its spaces become '+'. */
  function QuotedQuery(title: string, author: string): string {
    "\"" + Clean(title) + "\" \"by " + Clean(author) + "\""
  }

  /** `build_amazon_query` */
  function BuildAmazonQuery(title: string, author: string): string {
    ReplaceChar(QuotedQuery(title, author), ' ', '+')
  }

  /** In the quoted query every whitespace character is a space and there is no '+'. */
  lemma QuotedQueryChars(title: string, author: string)
    ensures forall c :: c in QuotedQuery(title, author) ==> c != '+' && (IsSpace(c) ==> c == ' ')
  {
    CleanChars(title);
    CleanChars(author);
    QuotedChars(Clean(title), Clean(author));
  }

  lemma QuotedChars(t: string, a: string)
    requires forall c :: c in t ==> IsWordChar(c) || c == ' '
    requires forall c :: c in a ==> IsWordChar(c) || c == ' '
    ensures forall c :: c in "\"" + t + "\" \"by " + a + "\"" ==> c != '+' && (IsSpace(c) ==> c == ' ')
  {
    var q, mid := "\"", "\" \"by ";
    forall c | c in q + t + mid + a + q ensures c != '+' && (IsSpace(c) ==> c == ' ') {
      assert c in q || c in t || c in mid || c in a;
    }
  }

  lemma ReplaceCharBack(p: string)
    requires forall c :: c in p ==> c != '+' && (IsSpace(c) ==> c == ' ')
    ensures forall c :: c in ReplaceChar(p, ' ', '+') ==> !IsSpace(c)
    ensures ReplaceChar(ReplaceChar(p, ' ', '+'), '+', ' ') == p
  {
    var q := ReplaceChar(p, ' ', '+');
    forall c | c in q ensures !IsSpace(c) {
      var i :| 0 <= i < |q| && q[i] == c;
      assert p[i] in p;
    }
    forall i | 0 <= i < |p| ensures ReplaceChar(q, '+', ' ')[i] == p[i] {
      assert p[i] in p;
    }
  }

  /**
   * The query holds no whitespace at all, and turning its '+' back into spaces gives the
   * quoted form, since `clean` never keeps a '+'.
   */
  lemma BuildAmazonQueryDecodes(title: string, author: string)
    ensures |BuildAmazonQuery(title, author)| == |Clean(title)| + |Clean(author)| + 8
    ensures forall c :: c in BuildAmazonQuery(title, author) ==> !IsSpace(c)
    ensures ReplaceChar(BuildAmazonQuery(title, author), '+', ' ') == QuotedQuery(title, author)
  {
    QuotedQueryChars(title, author);
    ReplaceCharBack(QuotedQuery(title, author));
  }

  // ---------------------------------------------------------------------------
  // try_get_review_count

  /** Every comma removed: `s.replace(",", "")`. */
  function RemoveCommas(s: string): (r: string)
    ensures ',' !in r
    ensures forall c :: c in r ==> c in s
    ensures (',' !in s) ==> r == s
  {
    if s == [] then []
    else if s[0] == ',' then RemoveCommas(s[1..])
    else [s[0]] + RemoveCommas(s[1..])
  }

  lemma RemoveCommasOfRun(run: string)
    requires run != [] && IsDigit(run[0])
    requires forall i :: 0 <= i < |run| ==> IsDigit(run[i]) || run[i] == ','
    ensures RemoveCommas(run) != [] && AllDigits(RemoveCommas(run))
  {
    var r := RemoveCommas(run);
    assert r[0] == run[0];
    forall k | 0 <= k < |r| ensures IsDigit(r[k]) {
      assert r[k] in r;
      var m :| 0 <= m < |run| && run[m] == r[k];
    }
  }

  /**
   * The review count: the first match of `\d[\d,]*` with its commas removed, or None when
   * the text holds no digit. The count is a non-empty digit string.
   */
  function ReviewCount(text: string): (r: Option<string>)
    ensures r.None? <==> forall i :: 0 <= i < |text| ==> !IsDigit(text[i])
    ensures r.Some? ==> r.value != [] && AllDigits(r.value)
  {
    match FirstDigitIndex(text)
    case None => None
    case Some(i) =>
      var run := DigitRun(text[i..], true);
      RemoveCommasOfRun(run);
      Some(RemoveCommas(run))
  }

  lemma RemoveCommasAppend(a: string, b: string)
    ensures RemoveCommas(a + b) == RemoveCommas(a) + RemoveCommas(b)
  {
    if a == [] {
      assert a + b == b;
    } else {
      assert (a + b)[0] == a[0] && (a + b)[1..] == a[1..] + b;
      RemoveCommasAppend(a[1..], b);
    }
  }

  /** A count shown with a thousands separator, as in "1,234 ratings", reads back without it. */
  lemma ReviewCountGrouped(lead: string, thousands: string, rest: string)
    requires lead != [] && AllDigits(lead) && AllDigits(thousands)
    requires rest == [] || !(IsDigit(rest[0]) || rest[0] == ',')
    ensures ReviewCount(lead + [','] + thousands + rest) == Some(lead + thousands)
  {
    var p := lead + [','] + thousands;
    var s := p + rest;
    assert s[0] == lead[0];
    assert FirstDigitIndex(s) == Some(0);
    assert s[0..] == s;
    GroupedRun(lead, thousands);
    DigitRunOf(p, rest, true);
    GroupedRemoveCommas(lead, thousands);
  }

  /** Digits, a comma, digits: a run of `\d[\d,]*`. */
  lemma GroupedRun(lead: string, thousands: string)
    requires AllDigits(lead) && AllDigits(thousands)
    ensures var p := lead + [','] + thousands;
      forall i :: 0 <= i < |p| ==> IsDigit(p[i]) || p[i] == ','
  {
    var p := lead + [','] + thousands;
    forall i | 0 <= i < |p| ensures IsDigit(p[i]) || p[i] == ',' {
      if i < |lead| {
        assert p[i] == lead[i];
      } else if i > |lead| {
        assert p[i] == thousands[i - |lead| - 1];
      }
    }
  }

  /** Removing the commas of digits, a comma, digits joins the two digit strings. */
  lemma GroupedRemoveCommas(lead: string, thousands: string)
    requires AllDigits(lead) && AllDigits(thousands)
    ensures RemoveCommas(lead + [','] + thousands) == lead + thousands
  {
    assert RemoveCommas(lead + [',']) == lead by {
      RemoveCommasAppend(lead, [',']);
      assert RemoveCommas([',']) == [];
      DigitsHaveNoComma(lead);
      assert lead + [] == lead;
    }
    RemoveCommasAppend(lead + [','], thousands);
    DigitsHaveNoComma(thousands);
  }

  lemma DigitsHaveNoComma(d: string)
    requires AllDigits(d)
    ensures RemoveCommas(d) == d
  {
    forall k | 0 <= k < |d| ensures d[k] != ',' {
      assert IsDigit(d[k]);
    }
  }

  // ---------------------------------------------------------------------------
  // try_get_genres

  /** `in\s` matches at `i`. */
  predicate InAt(s: string, i: nat) {
    i + 2 < |s| && s[i] == 'i' && s[i + 1] == 'n' && IsSpace(s[i + 2])
  }

  /** The first index where "in" is followed by whitespace, at or after `from`. */
  function FindIn(s: string, from: nat): (r: Option<nat>)
    ensures r.Some? ==> from <= r.value && InAt(s, r.value)
    ensures forall i :: from <= i < (if r.Some? then r.value else |s|) ==> !InAt(s, i)
    decreases |s| - from
  {
    if from + 2 >= |s| then None
    else if InAt(s, from) then Some(from)
    else FindIn(s, from + 1)
  }

  /** `.*`: the text up to the first newline. */
  function UntilNewline(s: string): (r: string)
    ensures |r| <= |s| && '\n' !in r && r == s[..|r|]
    ensures |r| < |s| ==> s[|r|] == '\n'
  {
    match IndexOfChar(s, '\n')
    case None => s
    case Some(k) => s[..k]
  }

  /** `re.search(r"in\s+(.*)", raw)`: its group, or the whole text when there is no match. */
  function AfterIn(raw: string): string {
    match FindIn(raw, 0)
    case None => raw
    case Some(i) => UntilNewline(LStrip(raw[i + 2..]))
  }

  /** `.*?\)$` from `k`: a ')' at the end, or just before a final newline, with no newline between. */
  predicate ClosesAtEnd(s: string, k: nat) {
    || (k + 1 <= |s| && s[|s| - 1] == ')' && '\n' !in s[k..|s| - 1])
    || (k + 2 <= |s| && s[|s| - 2] == ')' && s[|s| - 1] == '\n' && '\n' !in s[k..|s| - 2])
  }

  /** `\s+\(.*?\)$` matches from `i`. */
  predicate ParenFrom(s: string, i: nat) {
    i < |s| && IsSpace(s[i]) &&
    var j := |s| - |LStrip(s[i..])|;
    j < |s| && s[j] == '(' && ClosesAtEnd(s, j + 1)
  }

  /** The leftmost start of a trailing parenthetical at or after `from`. */
  function FindParen(s: string, from: nat): (r: Option<nat>)
    ensures r.Some? ==> from <= r.value < |s| && ParenFrom(s, r.value)
    ensures forall i :: from <= i < (if r.Some? then r.value else |s|) ==> !ParenFrom(s, i)
    decreases |s| - from
  {
    if from >= |s| then None
    else if ParenFrom(s, from) then Some(from)
    else FindParen(s, from + 1)
  }

  /** `re.sub(r"\s+\(.*?\)$", "", s)`: the text before a trailing parenthetical. */
  function ParenCut(s: string): string {
    match FindParen(s, 0)
    case None => s
    case Some(i) => s[..i]
  }

  /** `re.sub(r"\s+\(.*?\)$", "", s).strip()` */
  function DropParenthetical(s: string): string {
    Strip(ParenCut(s))
  }

  /** One genre line cleaned: the category after "in", without a trailing "(...)". */
  function CleanGenre(raw: string): string {
    DropParenthetical(AfterIn(raw))
  }

  /** A cleaned genre never starts or ends with whitespace. */
  lemma CleanGenreTrimmed(raw: string)
    ensures NoOuterSpace(CleanGenre(raw))
  {
    StripNoOuterSpace(ParenCut(AfterIn(raw)));
  }

  lemma NoParenWithout(s: string)
    requires '(' !in s
    ensures FindParen(s, 0).None?
  {
    forall i | 0 <= i < |s| ensures !ParenFrom(s, i) {
      var j := |s| - |LStrip(s[i..])|;
      if j < |s| {
        assert s[j] in s;
      }
    }
  }

  /**
   * A best-seller rank line "#1,234 in Name" cleans to the category name, when the rank part
   * holds no 'i', and the name no '(' and no newline.
   */
  lemma CleanGenreRankLine(rank: string, name: string)
    requires 'i' !in rank && '(' !in name && '\n' !in name
    requires name != [] && NoOuterSpace(name)
    ensures CleanGenre(rank + "in " + name) == name
  {
    AfterInRankLine(rank, name);
    NoParenthetical(name);
  }

  /** So does "#1,234 in Name (Note)", the note being dropped, when it holds no newline. */
  lemma CleanGenreRankLineNote(rank: string, name: string, note: string)
    requires 'i' !in rank && '(' !in name && '\n' !in name && '\n' !in note
    requires name != [] && NoOuterSpace(name)
    ensures CleanGenre(rank + "in " + (name + " (" + note + ")")) == name
  {
    var tail := name + " (" + note + ")";
    assert tail[0] == name[0];
    AfterInRankLine(rank, tail);
    ParenSuffix(name, note);
  }

  /** A stripped name without '(' is left alone by `DropParenthetical`. */
  lemma NoParenthetical(name: string)
    requires '(' !in name && NoOuterSpace(name)
    ensures DropParenthetical(name) == name
  {
    NoParenWithout(name);
    StripIdentity(name);
  }

  lemma AfterInRankLine(rank: string, tail: string)
    requires 'i' !in rank && '\n' !in tail && (tail == [] || !IsSpace(tail[0]))
    ensures AfterIn(rank + "in " + tail) == tail
  {
    var s := rank + "in " + tail;
    var n := |rank|;
    assert InAt(s, n);
    forall i | 0 <= i < n ensures !InAt(s, i) {
      assert s[i] == rank[i];
      assert rank[i] in rank;
    }
    var f := FindIn(s, 0);
    assert f == Some(n);
    assert s[n + 2..] == " " + tail;
    assert LStrip(" " + tail) == LStrip(tail) by {
      assert (" " + tail)[1..] == tail;
    }
  }

  lemma ParenSuffix(name: string, note: string)
    requires '(' !in name && '\n' !in name && '\n' !in note
    requires name != [] && NoOuterSpace(name)
    ensures DropParenthetical(name + " (" + note + ")") == name
  {
    var s := name + " (" + note + ")";
    var n := |name|;
    ParenStartsAt(name, note);
    ParenNotBefore(name, note);
    FindParenIs(s, n);
    assert s[..n] == name;
    StripIdentity(name);
  }

  /** The parenthetical of "Name (Note)" starts at the space after the name. */
  lemma ParenStartsAt(name: string, note: string)
    requires '\n' !in note
    ensures ParenFrom(name + " (" + note + ")", |name|)
  {
    var t := " (" + note + ")";
    var s := name + t;
    var n := |name|;
    assert name + " (" + note + ")" == s;
    assert s[n..] == t;
    LStripParen(note);
    assert s[n] == ' ' && s[n + 1] == '(' && s[|s| - 1] == ')';
    assert s[n + 2..|s| - 1] == note;
  }

  lemma LStripParen(note: string)
    ensures var t := " (" + note + ")"; LStrip(t) == t[1..] && t[1] == '('
  {
    var t := " (" + note + ")";
    assert t[1] == '(';
    assert t[1..][0] == '(';
  }

  /** No parenthetical of "Name (Note)" starts inside the name. */
  lemma ParenNotBefore(name: string, note: string)
    requires '(' !in name && name != [] && NoOuterSpace(name)
    ensures forall i :: 0 <= i < |name| ==> !ParenFrom(name + " (" + note + ")", i)
  {
    var s := name + " (" + note + ")";
    var n := |name|;
    assert s[n - 1] == name[n - 1];
    forall i | 0 <= i < n ensures !ParenFrom(s, i) {
      if IsSpace(s[i]) {
        LStripStopsAt(s, i, n);
        var j := |s| - |LStrip(s[i..])|;
        assert s[j] == name[j];
        assert name[j] in name;
      }
    }
  }

  /** The leftmost parenthetical is at `n` when one starts there and none before. */
  lemma FindParenIs(s: string, n: nat)
    requires ParenFrom(s, n) && forall i :: 0 <= i < n ==> !ParenFrom(s, i)
    ensures FindParen(s, 0) == Some(n)
  {
  }

  /** Stripping whitespace from `s[i..]` stops at a non-space before `n` if there is one. */
  lemma LStripStopsAt(s: string, i: nat, n: nat)
    requires i < n <= |s| && n > 0 && !IsSpace(s[n - 1])
    ensures |s| - |LStrip(s[i..])| <= n - 1
  {

  }

  /**
   * `seen`-based de-duplication: the first occurrence of each value, in order
   * (`DedupFirstOccurrences` states which positions are kept and in what order).
   */
  function Dedup(s: seq<string>, seen: set<string>): (r: seq<string>)
    decreases |s|
  {
    if s == [] then []
    else if s[0] in seen then Dedup(s[1..], seen)
    else [s[0]] + Dedup(s[1..], seen + {s[0]})
  }

  /** The positions of `s` that `Dedup(s, seen)` keeps, in the order it visits them. */
  function FirstIndices(s: seq<string>, seen: set<string>): seq<nat>
    decreases |s|
  {
    if s == [] then []
    else if s[0] in seen then Shifted(FirstIndices(s[1..], seen))
    else [0] + Shifted(FirstIndices(s[1..], seen + {s[0]}))
  }

  /** Every position moved one place to the right. */
  function Shifted(idx: seq<nat>): seq<nat>
  {
    seq(|idx|, k requires 0 <= k < |idx| => idx[k] + 1)
  }

  /** Each `r[k]` is the value at position `idx[k]` of `s`, not in `seen` and not earlier in `s`. */
  ghost predicate KeptAt(s: seq<string>, seen: set<string>, idx: seq<nat>, r: seq<string>) {
    && |idx| == |r|
    && forall k :: 0 <= k < |idx| ==>
         idx[k] < |s| && r[k] == s[idx[k]] && r[k] !in seen && r[k] !in s[..idx[k]]
  }

  /** The positions strictly increase. */
  ghost predicate Increasing(idx: seq<nat>) {
    forall k, l :: 0 <= k < l < |idx| ==> idx[k] < idx[l]
  }

  /** Every position whose value is neither in `seen` nor earlier in `s` is listed. */
  ghost predicate CoversFirstOccurrences(s: seq<string>, seen: set<string>, idx: seq<nat>) {
    forall i :: 0 <= i < |s| && s[i] !in seen && s[i] !in s[..i] ==> i in idx
  }

  /**
   * `idx` lists, in increasing order, exactly the positions of `s` whose value is neither in
   * `seen` nor earlier in `s`, and `r` holds the values at those positions.
   */
  ghost predicate KeepsFirstOccurrences(s: seq<string>, seen: set<string>, idx: seq<nat>, r: seq<string>) {
    KeptAt(s, seen, idx, r) && Increasing(idx) && CoversFirstOccurrences(s, seen, idx)
  }

  /** The de-duplicated list is the values at the first-occurrence positions, in position order. */
  lemma {:induction false} DedupFirstOccurrences(s: seq<string>, seen: set<string>)
    ensures KeepsFirstOccurrences(s, seen, FirstIndices(s, seen), Dedup(s, seen))
    decreases |s|
  {
    if s != [] {
      var t := s[1..];
      if s[0] in seen {
        var ti := FirstIndices(t, seen);
        DedupFirstOccurrences(t, seen);
        ShiftedIncreasing(ti);
        SkippedHeadKept(s, seen, ti, Dedup(t, seen));
        SkippedHeadCovers(s, seen, ti);
      } else {
        var ti := FirstIndices(t, seen + {s[0]});
        DedupFirstOccurrences(t, seen + {s[0]});
        ShiftedIncreasing(ti);
        KeptHeadKept(s, seen, ti, Dedup(t, seen + {s[0]}));
        KeptHeadCovers(s, seen, ti);
      }
    }
  }

  /** Moving increasing positions one place right, with or without a 0 in front, keeps them increasing. */
  lemma ShiftedIncreasing(idx: seq<nat>)
    requires Increasing(idx)
    ensures Increasing(Shifted(idx)) && Increasing([0] + Shifted(idx))
  {
    var u := [0] + Shifted(idx);
    forall k, l | 0 <= k < l < |u| ensures u[k] < u[l] {
      if k > 0 {
        assert u[k] == idx[k - 1] + 1 && u[l] == idx[l - 1] + 1;
      }
    }
  }

  /** A head already in `seen` is dropped: the tail's kept positions move one place right. */
  lemma SkippedHeadKept(s: seq<string>, seen: set<string>, ti: seq<nat>, rt: seq<string>)
    requires s != [] && s[0] in seen
    requires KeptAt(s[1..], seen, ti, rt)
    ensures KeptAt(s, seen, Shifted(ti), rt)
  {
    var idx := Shifted(ti);
    forall k | 0 <= k < |idx|
      ensures idx[k] < |s| && rt[k] == s[idx[k]] && rt[k] !in seen && rt[k] !in s[..idx[k]]
    {
      assert s[..idx[k]] == [s[0]] + s[1..][..ti[k]];
    }
  }

  /** A head already in `seen` is dropped: every later first occurrence is still listed. */
  lemma SkippedHeadCovers(s: seq<string>, seen: set<string>, ti: seq<nat>)
    requires s != [] && s[0] in seen
    requires CoversFirstOccurrences(s[1..], seen, ti)
    ensures CoversFirstOccurrences(s, seen, Shifted(ti))
  {
    var t, idx := s[1..], Shifted(ti);
    forall i | 0 <= i < |s| && s[i] !in seen && s[i] !in s[..i]
      ensures i in idx
    {
      assert s[..i] == [s[0]] + t[..i - 1];
      assert t[i - 1] == s[i];
      var k :| 0 <= k < |ti| && ti[k] == i - 1;
      assert idx[k] == i;
    }
  }

  /** A new head is kept at position 0, ahead of the tail's kept positions moved one place right. */
  lemma KeptHeadKept(s: seq<string>, seen: set<string>, ti: seq<nat>, rt: seq<string>)
    requires s != [] && s[0] !in seen
    requires KeptAt(s[1..], seen + {s[0]}, ti, rt)
    ensures KeptAt(s, seen, [0] + Shifted(ti), [s[0]] + rt)
  {
    var idx, r := [0] + Shifted(ti), [s[0]] + rt;
    forall k | 0 <= k < |idx|
      ensures idx[k] < |s| && r[k] == s[idx[k]] && r[k] !in seen && r[k] !in s[..idx[k]]
    {
      if k > 0 {
        assert idx[k] == ti[k - 1] + 1 && r[k] == rt[k - 1];
        assert s[..idx[k]] == [s[0]] + s[1..][..ti[k - 1]];
      }
    }
  }

  /** A new head is kept at position 0: every later first occurrence is still listed. */
  lemma KeptHeadCovers(s: seq<string>, seen: set<string>, ti: seq<nat>)
    requires s != [] && s[0] !in seen
    requires CoversFirstOccurrences(s[1..], seen + {s[0]}, ti)
    ensures CoversFirstOccurrences(s, seen, [0] + Shifted(ti))
  {
    var t, idx := s[1..], [0] + Shifted(ti);
    forall i | 0 < i < |s| && s[i] !in seen && s[i] !in s[..i]
      ensures i in idx
    {
      assert s[..i] == [s[0]] + t[..i - 1];
      assert t[i - 1] == s[i] && s[i] != s[0];
      var k :| 0 <= k < |ti| && ti[k] == i - 1;
      assert idx[k + 1] == i;
    }
  }

  /** The de-duplicated list has no repeats, misses nothing and adds nothing. */
  lemma {:induction false} DedupProperties(s: seq<string>, seen: set<string>)
    ensures forall i, j :: 0 <= i < j < |Dedup(s, seen)| ==> Dedup(s, seen)[i] != Dedup(s, seen)[j]
    ensures forall x :: x in Dedup(s, seen) <==> x in s && x !in seen
    decreases |s|
  {
    if s != [] {
      DedupProperties(s[1..], if s[0] in seen then seen else seen + {s[0]});
      if s[0] !in seen {
        var r := Dedup(s, seen);
        var t := Dedup(s[1..], seen + {s[0]});
        assert r == [s[0]] + t;
        forall i, j | 0 <= i < j < |r| ensures r[i] != r[j] {
          if i == 0 {
            assert r[j] == t[j - 1] && r[j] in t;
          } else {
            assert r[i] == t[i - 1] && r[j] == t[j - 1];
          }
        }
      }
    }
  }

  /** The list comprehension with the mutated `seen` set of `try_get_genres`. */
  method DedupInOrder(xs: seq<string>) returns (r: seq<string>)
    ensures r == Dedup(xs, {})
    ensures forall i, j :: 0 <= i < j < |r| ==> r[i] != r[j]
    ensures forall x :: x in r <==> x in xs
  {
    var seen: set<string> := {};
    r := [];
    for i := 0 to |xs|
      invariant r + Dedup(xs[i..], seen) == Dedup(xs, {})
      invariant forall x :: x in seen <==> x in xs[..i]
    {
      assert xs[i..][1..] == xs[i + 1..];
      assert xs[..i + 1] == xs[..i] + [xs[i]];
      if xs[i] !in seen {
        r := r + [xs[i]];
        seen := seen + {xs[i]};
      }
    }
    assert xs[|xs|..] == [];
    DedupProperties(xs, {});
  }

  /**
   * `try_get_genres` over the rank lines: each is cleaned, then repeats are dropped keeping
   * first occurrences in order.
   */
  method Genres(lines: seq<string>) returns (genres: seq<string>)
    ensures genres == Dedup(seq(|lines|, k requires 0 <= k < |lines| => CleanGenre(lines[k])), {})
    ensures forall i, j :: 0 <= i < j < |genres| ==> genres[i] != genres[j]
    ensures forall i :: 0 <= i < |lines| ==> CleanGenre(lines[i]) in genres
    ensures forall g :: g in genres ==> exists i :: 0 <= i < |lines| && CleanGenre(lines[i]) == g
  {
    var cleaned := CleanAll(lines);
    assert cleaned == seq(|lines|, k requires 0 <= k < |lines| => CleanGenre(lines[k]));
    genres := DedupInOrder(cleaned);
  }

  /** The cleaning loop of `try_get_genres`: one cleaned name per rank line, in order. */
  method CleanAll(lines: seq<string>) returns (cleaned: seq<string>)
    ensures |cleaned| == |lines|
    ensures forall k :: 0 <= k < |lines| ==> cleaned[k] == CleanGenre(lines[k])
  {
    cleaned := CleanEach(lines, CleanGenre);
  }

  /** Applies `clean` to each line in turn, appending the results. */
  method CleanEach(lines: seq<string>, clean: string -> string) returns (cleaned: seq<string>)
    ensures |cleaned| == |lines|
    ensures forall k :: 0 <= k < |lines| ==> cleaned[k] == clean(lines[k])
  {
    cleaned := [];
    for i := 0 to |lines|
      invariant |cleaned| == i
      invariant forall k :: 0 <= k < i ==> cleaned[k] == clean(lines[k])
    {
      cleaned := cleaned + [clean(lines[i])];
    }
  }

  // ---------------------------------------------------------------------------
  // try_get_metadata: label to field

  /** `field_map`: the result field a page label fills, if any. */
  function FieldFor(key: string): (f: Option<string>)
    ensures key == "ISBN-13" || key == "ISBN-10" ==> f == Some("ISBN")
  {
    if key == "Print length" then Some("Print Length")
    else if key == "Publication date" then Some("Publication Date")
    else if key == "Publisher" then Some("Publisher")
    else if key == "ISBN-13" || key == "ISBN-10" then Some("ISBN")
    else if key == "Edition" then Some("Edition")
    else if key == "Language" then Some("Language")
    else if key == "File size" then Some("File Size")
    else None
  }

  /** A result field counts as empty when absent (None) or "". */
  predicate EmptyField(result: map<string, string>, f: string) {
    f !in result || result[f] == ""
  }

  /** One label of the page applied to the result. */
  function FillOne(result: map<string, string>, key: string, value: string): map<string, string> {
    match FieldFor(key)
    case None => result
    case Some(f) => if EmptyField(result, f) then result[f := value] else result
  }

  /** All labels applied in the page's order. */
  function Fill(result: map<string, string>, items: seq<(string, string)>): map<string, string>
    decreases |items|
  {
    if items == [] then result else Fill(FillOne(result, items[0].0, items[0].1), items[1..])
  }

  /** The fill loop of `try_get_metadata` over the scraped (label, value) pairs. */
  method FillMetadata(result: map<string, string>, items: seq<(string, string)>) returns (filled: map<string, string>)
    ensures filled == Fill(result, items)
  {
    filled := result;
    for i := 0 to |items|
      invariant Fill(filled, items[i..]) == Fill(result, items)
    {
      assert items[i..][1..] == items[i + 1..];
      var (key, value) := items[i];
      var field := FieldFor(key);
      if field.Some? && EmptyField(filled, field.value) {
        filled := filled[field.value := value];
      }
    }
    assert items[|items|..] == [];
  }

  /** A field that already holds text, and every key no label maps to, keep their values. */
  lemma {:induction false} FillKeeps(result: map<string, string>, items: seq<(string, string)>, k: string)
    requires !EmptyField(result, k) || forall l :: FieldFor(l) != Some(k)
    ensures k in result ==> k in Fill(result, items) && Fill(result, items)[k] == result[k]
    ensures k !in result ==> k !in Fill(result, items)
    decreases |items|
  {
    if items != [] {
      var next := FillOne(result, items[0].0, items[0].1);
      assert k in result ==> k in next && next[k] == result[k];
      assert k !in result ==> k !in next;
      FillKeeps(next, items[1..], k);
    }
  }

  /**
   * For an empty field, the first label mapping to it with a non-empty value wins: ISBN-13
   * and ISBN-10 both fill "ISBN", so whichever comes first with a value is kept.
   */
  lemma {:induction false} FillFirstWins(result: map<string, string>, items: seq<(string, string)>, f: string, n: nat)
    requires EmptyField(result, f) && n < |items|
    requires FieldFor(items[n].0) == Some(f) && items[n].1 != ""
    requires forall i :: 0 <= i < n && FieldFor(items[i].0) == Some(f) ==> items[i].1 == ""
    ensures f in Fill(result, items) && Fill(result, items)[f] == items[n].1
    decreases n
  {
    var next := FillOne(result, items[0].0, items[0].1);
    if n == 0 {
      assert next[f] == items[0].1;
      FillKeeps(next, items[1..], f);
    } else {
      assert EmptyField(next, f);
      assert forall i :: 0 <= i < n - 1 && FieldFor(items[1..][i].0) == Some(f) ==> items[1..][i].1 == "" by {
        forall i | 0 <= i < n - 1 && FieldFor(items[1..][i].0) == Some(f) ensures items[1..][i].1 == "" {
          assert items[1..][i] == items[i + 1];
        }
      }
      FillFirstWins(next, items[1..], f, n - 1);
    }
  }

  // ---------------------------------------------------------------------------
  // scrape_amazon_book's arguments

  /** How the scrape proceeds: straight to the product page, or through a search first. */
  datatype Plan = ProductPage(asin: string) | SearchFirst(title: string, author: string)

  predicate Truthy(s: Option<string>) {
    s.Some? && s.value != ""
  }

  /**
   * The argument check of `scrape_amazon_book`: an ASIN, or both a title and an author, are
   * needed (ValueError otherwise); a given ASIN skips the search.
   */
  function ScrapePlan(asin: Option<string>, title: Option<string>, author: Option<string>): (r: Result<Plan, string>)
    ensures r.Err? <==> !Truthy(asin) && !(Truthy(title) && Truthy(author))
    ensures Truthy(asin) ==> r == Ok(ProductPage(asin.value))
    ensures r.Ok? && r.value.SearchFirst? ==> r.value.title != "" && r.value.author != ""
  {
    if !Truthy(asin) && !(Truthy(title) && Truthy(author)) then Err("Provide either ASIN or both title and author.")
    else if Truthy(asin) then Ok(ProductPage(asin.value))
    else Ok(SearchFirst(title.value, author.value))
  }

  /** The product page of an ASIN. */
  function BookUrl(asin: string): (url: string)
    ensures StartsWith(url, "https://www.amazon.com/dp/") && url[26..] == asin
  {
    "https://www.amazon.com/dp/" + asin
  }
}
