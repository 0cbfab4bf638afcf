/** get_wiki_info_mapping.py: the cleaners for the QID, title and abstract
    columns, the per-line logic of the three mapping builders, the merge of
    the three mappings into one, and the merge of two image mappings.

    Files are read by the source one line at a time; here a file is the
    sequence of its lines, each with its line break still attached.
    `urllib.parse.unquote` is a parameter. */
module WikiInfo {
  import opened Strings
  import opened Regex
  import opened Maps

  // ---------------------------------------------------------------------
  // get_qid_from_url
  // ---------------------------------------------------------------------

  /** The pattern's host, in three literal pieces around its two dots. The
      dots are not escaped in the pattern: they match any character but a
      newline. */
  const WikidataScheme: string := "<http://www"
  const WikidataHost: string := "wikidata"
  const WikidataPath: string := "org/entity/"
  const WikidataPrefix: string := WikidataScheme + "." + WikidataHost + "." + WikidataPath

  predicate WikidataPrefixAt(s: string)
  {
    |s| >= 32
    && s[..11] == WikidataScheme && s[11] != '\n'
    && s[12..20] == WikidataHost && s[20] != '\n'
    && s[21..32] == WikidataPath
  }

  predicate IsDigit(c: char)
  {
    '0' <= c <= '9'
  }

  /** Length of the run of digits at the front of `s` (`[0-9]+` is greedy). */
  function DigitRun(s: string): (n: nat)
    ensures n <= |s|
    ensures forall k :: 0 <= k < n ==> IsDigit(s[k])
    ensures n < |s| ==> !IsDigit(s[n])
  {
    if s != [] && IsDigit(s[0]) then 1 + DigitRun(s[1..]) else 0
  }

  /** The pattern at the front of `s`, reporting the QID it captures. */
  function QidUrl(s: string, atStart: bool): Option<Match>
  {
    if WikidataPrefixAt(s) && |s| > 32 && s[32] == 'Q' then
      var n := DigitRun(s[33..]);
      if n >= 1 && 33 + n < |s| && s[33 + n] == '>' then Some(Match(34 + n, s[32..33 + n])) else None
    else None
  }

  /** `get_qid_from_url`: every Wikidata entity URL becomes its QID. */
  function GetQidFromUrl(url: string): string
  {
    RewriteAll(QidUrl, url, true)
  }

  /** The entity URL of a QID. */
  function WikidataUrl(qid: string): string
  {
    WikidataPrefix + qid + ">"
  }

  /** The literal host is one of the hosts the pattern accepts. */
  lemma WikidataPrefixMatches(s: string)
    requires StartsWith(s, WikidataPrefix)
    ensures WikidataPrefixAt(s)
  {
    var p := WikidataPrefix;
    assert |p| == 32;
    assert s[..32] == p;
    assert p[..11] == WikidataScheme && p[11] == '.';
    assert p[12..20] == WikidataHost && p[20] == '.';
    assert p[21..32] == WikidataPath;
    assert s[..11] == p[..11];
    assert s[12..20] == p[12..20];
    assert s[21..32] == p[21..32];
  }

  /** The URL of `Q` followed by digits gives that QID back. */
  lemma QidFromUrlRoundTrip(digits: string)
    requires |digits| >= 1 && forall k :: 0 <= k < |digits| ==> IsDigit(digits[k])
    ensures GetQidFromUrl(WikidataUrl("Q" + digits)) == "Q" + digits
  {
    var s := WikidataUrl("Q" + digits);
    assert |WikidataPrefix| == 32;
    assert s == WikidataPrefix + ("Q" + digits + ">");
    WikidataPrefixMatches(s);
    assert s[32] == 'Q';
    assert s[33..] == digits + ">";
    DigitRunOf(digits, ">");
    assert s[32..33 + |digits|] == "Q" + digits;
    assert QidUrl(s, true) == Some(Match(|s|, "Q" + digits));
    assert s + [] == s;
    RewriteAllStep(QidUrl, s, [], true, "Q" + digits);
    assert QidUrl([], false).None?;
  }

  lemma {:induction false} DigitRunOf(digits: string, rest: string)
    requires forall k :: 0 <= k < |digits| ==> IsDigit(digits[k])
    requires rest == [] || !IsDigit(rest[0])
    ensures DigitRun(digits + rest) == |digits|
    decreases |digits|
  {
    if digits == [] {
      assert digits + rest == rest;
    } else {
      assert (digits + rest)[1..] == digits[1..] + rest;
      DigitRunOf(digits[1..], rest);
    }
  }

  /** A string in which the pattern matches nowhere comes back unchanged. */
  lemma QidFromUrlNoMatch(url: string)
    requires NoMatchIn(QidUrl, url, [], true)
    ensures GetQidFromUrl(url) == url
  {
    RewriteAllNoMatch(QidUrl, url, true);
  }

  /** In particular a string without `<` comes back unchanged. */
  lemma QidFromUrlPlain(url: string)
    requires NoneOf(url, {'<'})
    ensures GetQidFromUrl(url) == url
  {
    forall i | 0 <= i < |url| ensures QidUrl(url[i..] + [], true && i == 0).None? {
      assert (url[i..] + [])[0] == url[i];
    }
    QidFromUrlNoMatch(url);
  }

  // ---------------------------------------------------------------------
  // get_wikititle_from_url
  // ---------------------------------------------------------------------

  const WikipediaHost: string := "<https://en.wikipedia"
  const WikipediaPath: string := ".org/wiki/"
  const WikipediaPrefix: string := WikipediaHost + WikipediaPath

  /** `<https://en\.wikipedia\.org/wiki/(.*?)>` at the front of `s`: the lazy
      group runs to the first `>`, and `.` does not match a newline. */
  function TitleUrl(s: string, atStart: bool): Option<Match>
  {
    if StartsWith(s, WikipediaPrefix) then
      match FirstOf(s[31..], {'>', '\n'})
      case None => None
      case Some(k) => if s[31 + k] == '>' then Some(Match(32 + k, s[31..31 + k])) else None
    else None
  }

  /** `get_wikititle_from_url`: the page URLs become titles, which are then
      percent-decoded (`unquote`) and have `_` turned into spaces. The
      result never holds `_`, since the replacement comes last. */
  function GetWikititleFromUrl(url: string, unquote: string -> string): (title: string)
    ensures NoneOf(title, {'_'})
  {
    ReplaceChar(unquote(RewriteAll(TitleUrl, url, true)), '_', ' ')
  }

  /** The page URL of a title without `>` or newline gives the title back,
      decoded and with spaces for underscores. */
  lemma TitleFromUrlRoundTrip(title: string, unquote: string -> string)
    requires NoneOf(title, {'>', '\n'})
    ensures GetWikititleFromUrl(WikipediaPrefix + title + ">", unquote) == ReplaceChar(unquote(title), '_', ' ')
  {
    var s := WikipediaPrefix + title + ">";
    assert s[31..] == title + ">";
    FirstOfAfterClean(title, ">", {'>', '\n'});
    assert s[31..31 + |title|] == title;
    assert TitleUrl(s, true) == Some(Match(|s|, title));
    assert s + [] == s;
    RewriteAllStep(TitleUrl, s, [], true, title);
    assert TitleUrl([], false).None?;
    assert RewriteAll(TitleUrl, s, true) == title;
  }

  // ---------------------------------------------------------------------
  // clean_abstract_string
  // ---------------------------------------------------------------------

  /** `re.sub(r'^"@ ', '', abstract)`: the marker is only removed at the start. */
  function DropLeadingMarker(a: string): (r: string)
    ensures |r| <= |a|
  {
    if StartsWith(a, "\"@ ") then a[3..] else a
  }

  /** Number of spaces at the front of `s`. */
  function SpaceRun(s: string): (n: nat)
    ensures n <= |s|
  {
    if s != [] && s[0] == ' ' then 1 + SpaceRun(s[1..]) else 0
  }

  /** `' ( )+'` with replacement `' '`: a run of two or more spaces becomes one. */
  function SpacesToOne(s: string, atStart: bool): Option<Match>
  {
    if |s| >= 2 && s[0] == ' ' && s[1] == ' ' then Some(Match(SpaceRun(s), " ")) else None
  }

  lemma SpacesToOneShrinks()
    ensures Shrinking(SpacesToOne)
    ensures AvoidsChars(SpacesToOne, {'@', '\t'})
  {
    forall t: string, b: bool | SpacesToOne(t, b).Some?
      ensures |SpacesToOne(t, b).value.out| <= SpacesToOne(t, b).value.len <= |t|
    {
      assert SpaceRun(t) == 1 + SpaceRun(t[1..]);
      assert SpaceRun(t[1..]) == 1 + SpaceRun(t[2..]);
    }
  }

  /** `clean_abstract_string`. The result holds no `@` and no tab and is
      never longer than the input. */
  function CleanAbstractString(abstractText: string): (r: string)
    ensures NoneOf(r, {'@', '\t'})
    ensures |r| <= |abstractText|
  {
    var a1 := DropLeadingMarker(abstractText);
    var a2 := ReplaceAll(a1, "\"@en", "");
    var a3 := ReplaceAll(a2, "@", "");
    var a4 := RewriteAll(SpacesToOne, a3, true);
    var a5 := ReplaceAll(a4, "\\\"", "\"");
    var a6 := ReplaceAll(a5, "\t", " ");
    ReplaceAllNotLonger(a1, "\"@en", "");
    ReplaceAllNotLonger(a2, "@", "");
    SpacesToOneShrinks();
    RewriteAllNotLonger(SpacesToOne, a3, true);
    ReplaceAllNotLonger(a4, "\\\"", "\"");
    ReplaceAllNotLonger(a5, "\t", " ");
    ReplaceAllCharGone(a2, '@', "", {'@'});
    RewriteAllKeepsAbsent(SpacesToOne, a3, true, {'@'});
    ReplaceAllKeepsAbsent(a4, "\\\"", "\"", {'@'});
    ReplaceAllCharGone(a5, '\t', " ", {'@', '\t'});
    a6
  }

  // ---------------------------------------------------------------------
  // Lines of the mapping files (get_mapping_tuples)
  // ---------------------------------------------------------------------

  /** Number of characters of `cs` at the front of `s`. */
  function LeadIn(s: string, cs: set<char>): (n: nat)
    ensures n <= |s|
    ensures forall k :: 0 <= k < n ==> s[k] in cs
    ensures n < |s| ==> s[n] !in cs
  {
    if s != [] && s[0] in cs then 1 + LeadIn(s[1..], cs) else 0
  }

  /** Number of characters of `cs` at the end of `s`. */
  function TrailIn(s: string, cs: set<char>): (n: nat)
    ensures n <= |s|
    ensures forall k :: |s| - n <= k < |s| ==> s[k] in cs
    ensures n < |s| ==> s[|s| - n - 1] !in cs
  {
    if s != [] && s[|s| - 1] in cs then 1 + TrailIn(s[..|s| - 1], cs) else 0
  }

  /** Python's `s.strip(chars)`: the characters of `cs` at the front
      (`LeadIn`) and at the end are removed, and what is left neither starts
      nor ends with one of them. */
  function Strip(s: string, cs: set<char>): (r: string)
    ensures |r| <= |s|
    ensures r != [] ==> r[0] !in cs && r[|r| - 1] !in cs
    ensures LeadIn(s, cs) + |r| <= |s| && r == s[LeadIn(s, cs)..LeadIn(s, cs) + |r|]
    ensures forall k :: LeadIn(s, cs) + |r| <= k < |s| ==> s[k] in cs
  {
    var a := LeadIn(s, cs);
    var t := s[a..];
    var n := TrailIn(t, cs);
    assert t[..|t| - n] == s[a..a + |t| - n];
    assert forall k :: a + |t| - n <= k < |s| ==> s[k] == t[k - a];
    t[..|t| - n]
  }

  /** `s.split(sep, 1)`: at most two fields, split at the first `sep`. */
  function SplitOnce(s: string, sep: char): (r: seq<string>)
    ensures 1 <= |r| <= 2
    ensures |r| == 1 <==> NoneOf(s, {sep})
    ensures |r| == 2 ==> NoneOf(r[0], {sep}) && s == r[0] + [sep] + r[1]
    ensures |r| == 1 ==> r[0] == s
  {
    FirstOfLeftmost(s, {sep});
    match FirstOf(s, {sep})
    case None => [s]
    case Some(i) => assert s == s[..i] + [sep] + s[i + 1..]; [s[..i], s[i + 1..]]
  }

  /** `for a, b in fields`: unpacking fails (ValueError) unless there are exactly two. */
  function Pair(fields: seq<string>): (r: Option<(string, string)>)
    ensures r.Some? <==> |fields| == 2
    ensures r.Some? ==> r.value == (fields[0], fields[1])
  {
    if |fields| == 2 then Some((fields[0], fields[1])) else None
  }

  /** The two tab-separated fields of a line (`max_splits = -1`). */
  function Fields(line: string): Option<(string, string)>
  {
    Pair(Split(Strip(line, {'\n'}), '\t'))
  }

  /** The key and the rest of a line, split at its first tab (`max_splits = 1`). */
  function KeyAndRest(line: string): Option<(string, string)>
  {
    Pair(SplitOnce(Strip(line, {'\n'}), '\t'))
  }

  /** How a line of the title file becomes a row, for a given `unquote`. */
  function TitleRowOf(unquote: string -> string): string -> Option<(string, string)>
  {
    line => TitleRow(line, unquote)
  }

  function TitleRow(line: string, unquote: string -> string): Option<(string, string)>
  {
    match Fields(line)
    case None => None
    case Some((qidUrl, wikiUrl)) => Some((GetQidFromUrl(qidUrl), GetWikititleFromUrl(wikiUrl, unquote)))
  }

  function ImageRow(line: string): Option<(string, string)>
  {
    match Fields(line)
    case None => None
    case Some((qidUrl, imageUrl)) => Some((GetQidFromUrl(qidUrl), Strip(imageUrl, {'<', '>'})))
  }

  function AbstractRow(line: string): Option<(string, string)>
  {
    match KeyAndRest(line)
    case None => None
    case Some((qidUrl, text)) => Some((GetQidFromUrl(qidUrl), CleanAbstractString(text)))
  }

  /** The row of every line, in order; `None` as soon as one line does not
      unpack, since the ValueError ends the builder. */
  function Rows(lines: seq<string>, row: string -> Option<(string, string)>): (r: Option<seq<(string, string)>>)
    ensures r.Some? <==> forall k :: 0 <= k < |lines| ==> row(lines[k]).Some?
    ensures r.Some? ==> |r.value| == |lines| && forall k :: 0 <= k < |lines| ==> r.value[k] == row(lines[k]).value
  {
    if lines == [] then Some([])
    else
      var init := lines[..|lines| - 1];
      var rs := Rows(init, row);
      var last := row(lines[|lines| - 1]);
      assert forall k :: 0 <= k < |init| ==> init[k] == lines[k];
      if rs.None? || last.None? then None
      else
        assert forall k :: 0 <= k < |lines| - 1 ==> (rs.value + [last.value])[k] == rs.value[k];
        Some(rs.value + [last.value])
  }

  lemma RowsSnoc(lines: seq<string>, row: string -> Option<(string, string)>, i: nat, rows: seq<(string, string)>)
    requires i < |lines| && Rows(lines[..i], row) == Some(rows) && row(lines[i]).Some?
    ensures Rows(lines[..i + 1], row) == Some(rows + [row(lines[i]).value])
  {
    assert lines[..i + 1][..i] == lines[..i];
  }

  // ---------------------------------------------------------------------
  // The three builders
  // ---------------------------------------------------------------------

  /** `get_qid_to_wikititle_dict`: a later line for the same QID overwrites
      an earlier one. */
  method GetQidToWikititleDict(lines: seq<string>, unquote: string -> string)
    returns (r: Option<map<string, string>>)
    ensures r.Some? <==> Rows(lines, TitleRowOf(unquote)).Some?
    ensures r.Some? ==> r.value == LastWins(Rows(lines, TitleRowOf(unquote)).value)
  {
    var d: map<string, string> := map[];
    ghost var rows: seq<(string, string)> := [];
    for i := 0 to |lines|
      invariant Rows(lines[..i], TitleRowOf(unquote)) == Some(rows)
      invariant d == LastWins(rows)
    {
      var row := TitleRowOf(unquote)(lines[i]);
      if row.None? {
        return None;
      }
      var (qid, title) := row.value;
      RowsSnoc(lines, TitleRowOf(unquote), i, rows);
      LastWinsSnoc(rows, qid, title);
      d := d[qid := title];
      rows := rows + [(qid, title)];
    }
    assert lines[..|lines|] == lines;
    r := Some(d);
  }

  /** `get_qid_to_image_dict`: the first image of a QID stays. */
  method GetQidToImageDict(lines: seq<string>) returns (r: Option<map<string, string>>)
    ensures r.Some? <==> Rows(lines, ImageRow).Some?
    ensures r.Some? ==> r.value == FirstWins(Rows(lines, ImageRow).value)
  {
    var d: map<string, string> := map[];
    ghost var rows: seq<(string, string)> := [];
    for i := 0 to |lines|
      invariant Rows(lines[..i], ImageRow) == Some(rows)
      invariant d == FirstWins(rows)
    {
      var row := ImageRow(lines[i]);
      if row.None? {
        return None;
      }
      var (qid, image) := row.value;
      RowsSnoc(lines, ImageRow, i, rows);
      FirstWinsSnoc(rows, qid, image);
      if qid !in d {
        d := d[qid := image];
      }
      rows := rows + [(qid, image)];
    }
    assert lines[..|lines|] == lines;
    r := Some(d);
  }

  /** `get_qid_to_abstract_dict`: lines are split at their first tab only, so
      an abstract may hold tabs before it is cleaned; a later line for the
      same QID overwrites an earlier one. */
  method GetQidToAbstractDict(lines: seq<string>) returns (r: Option<map<string, string>>)
    ensures r.Some? <==> Rows(lines, AbstractRow).Some?
    ensures r.Some? ==> r.value == LastWins(Rows(lines, AbstractRow).value)
  {
    var d: map<string, string> := map[];
    ghost var rows: seq<(string, string)> := [];
    for i := 0 to |lines|
      invariant Rows(lines[..i], AbstractRow) == Some(rows)
      invariant d == LastWins(rows)
    {
      var row := AbstractRow(lines[i]);
      if row.None? {
        return None;
      }
      var (qid, text) := row.value;
      RowsSnoc(lines, AbstractRow, i, rows);
      LastWinsSnoc(rows, qid, text);
      d := d[qid := text];
      rows := rows + [(qid, text)];
    }
    assert lines[..|lines|] == lines;
    r := Some(d);
  }

  /** `v` neither starts nor ends with a character of `cs`. */
  predicate Trimmed(v: string, cs: set<char>)
  {
    v == [] || (v[0] !in cs && v[|v| - 1] !in cs)
  }

  /** Titles hold no `_`. */
  lemma TitleValuesClean(lines: seq<string>, unquote: string -> string, rows: seq<(string, string)>)
    requires Rows(lines, TitleRowOf(unquote)) == Some(rows)
    ensures forall q :: q in LastWins(rows) ==> NoneOf(LastWins(rows)[q], {'_'})
  {
    forall q | q in LastWins(rows) ensures NoneOf(LastWins(rows)[q], {'_'}) {
      LastWinsFrom(rows, q);
      var i :| 0 <= i < |rows| && rows[i] == (q, LastWins(rows)[q]);
      assert rows[i] == TitleRowOf(unquote)(lines[i]).value;
    }
  }

  /** Images neither start nor end with `<` or `>`. */
  lemma ImageValuesTrimmed(lines: seq<string>, rows: seq<(string, string)>)
    requires Rows(lines, ImageRow) == Some(rows)
    ensures forall q :: q in FirstWins(rows) ==> Trimmed(FirstWins(rows)[q], {'<', '>'})
  {
    forall q | q in FirstWins(rows) ensures Trimmed(FirstWins(rows)[q], {'<', '>'}) {
      FirstWinsFrom(rows, q);
      var i :| 0 <= i < |rows| && rows[i] == (q, FirstWins(rows)[q]);
      assert rows[i] == ImageRow(lines[i]).value;
      ImageRowTrimmed(lines[i]);
    }
  }

  lemma ImageRowTrimmed(line: string)
    requires ImageRow(line).Some?
    ensures Trimmed(ImageRow(line).value.1, {'<', '>'})
  {
    var (qidUrl, imageUrl) := Fields(line).value;
    var v := Strip(imageUrl, {'<', '>'});
    assert ImageRow(line).value.1 == v;
  }

  /** Abstracts hold no `@` and no tab. */
  lemma AbstractValuesClean(lines: seq<string>, rows: seq<(string, string)>)
    requires Rows(lines, AbstractRow) == Some(rows)
    ensures forall q :: q in LastWins(rows) ==> NoneOf(LastWins(rows)[q], {'@', '\t'})
  {
    forall q | q in LastWins(rows) ensures NoneOf(LastWins(rows)[q], {'@', '\t'}) {
      LastWinsFrom(rows, q);
      var i :| 0 <= i < |rows| && rows[i] == (q, LastWins(rows)[q]);
      assert rows[i] == AbstractRow(lines[i]).value;
    }
  }

  // ---------------------------------------------------------------------
  // get_qid_to_wiki_info_dict and combine_mappings
  // ---------------------------------------------------------------------

  /** A Python `dict` from strings to strings that the source changes in place. */
  class StrDict {
    var items: map<string, string>

    constructor (items0: map<string, string>)
      ensures items == items0
    {
      items := items0;
    }

    /** `d.pop(key, None)`. */
    method Pop(key: string)
      modifies this
      ensures items == old(items) - {key}
    {
      items := items - {key};
    }
  }

  datatype WikiInfo = WikiInfo(title: string, image: string, abstractText: string)

  /** `get_qid_to_wiki_info_dict`. Every QID of any of the three mappings
      gets its title, image and abstract, `""` where a mapping lacks it. The
      source pops from the image and abstract mappings as it goes: the image
      mapping is left with the QIDs that have no title, the abstract mapping
      with those that have neither a title nor an image. */
  method GetQidToWikiInfoDict(titles: map<string, string>, images: StrDict, abstracts: StrDict)
    returns (mapping: map<string, WikiInfo>)
    requires images != abstracts
    modifies images, abstracts
    ensures mapping.Keys == titles.Keys + old(images.items).Keys + old(abstracts.items).Keys
    ensures forall q :: q in mapping ==> mapping[q] == Info(titles, old(images.items), old(abstracts.items), q)
    ensures images.items == old(images.items) - titles.Keys
    ensures abstracts.items == old(abstracts.items) - titles.Keys - old(images.items).Keys
  {
    ghost var images0, abstracts0 := images.items, abstracts.items;
    mapping := AddTitled(titles, images, abstracts);
    mapping := AddImaged(mapping, titles, images.items, abstracts, images0, abstracts0);
    mapping := AddRest(mapping, titles, images0, abstracts.items, abstracts0);
  }

  /** The first loop: every titled QID, popped from the other two mappings. */
  method AddTitled(titles: map<string, string>, images: StrDict, abstracts: StrDict)
    returns (mapping: map<string, WikiInfo>)
    requires images != abstracts
    modifies images, abstracts
    ensures mapping.Keys == titles.Keys
    ensures forall q :: q in mapping ==> mapping[q] == Info(titles, old(images.items), old(abstracts.items), q)
    ensures images.items == old(images.items) - titles.Keys
    ensures abstracts.items == old(abstracts.items) - titles.Keys
  {
    ghost var images0, abstracts0 := images.items, abstracts.items;
    mapping := map[];
    var todo := titles.Keys;
    while todo != {}
      invariant todo <= titles.Keys
      invariant forall q :: q in images.items <==> q in images0 && (q !in titles || q in todo)
      invariant forall q :: q in images.items ==> images.items[q] == images0[q]
      invariant forall q :: q in abstracts.items <==> q in abstracts0 && (q !in titles || q in todo)
      invariant forall q :: q in abstracts.items ==> abstracts.items[q] == abstracts0[q]
      invariant forall q :: q in mapping <==> q in titles && q !in todo
      invariant forall q :: q in mapping ==> mapping[q] == Info(titles, images0, abstracts0, q)
      decreases todo
    {
      var q :| q in todo;
      assert Info(titles, images0, abstracts0, q)
          == WikiInfo(titles[q], GetOr(images.items, q, ""), GetOr(abstracts.items, q, ""));
      mapping := mapping[q := WikiInfo(titles[q], GetOr(images.items, q, ""), GetOr(abstracts.items, q, ""))];
      images.Pop(q);
      abstracts.Pop(q);
      todo := todo - {q};
    }
    assert mapping.Keys == titles.Keys;
  }

  /** The second loop: every untitled QID with an image, popped from the
      abstract mapping. */
  method AddImaged(mapping0: map<string, WikiInfo>, titles: map<string, string>, images: map<string, string>,
                   abstracts: StrDict, ghost images0: map<string, string>, ghost abstracts0: map<string, string>)
    returns (mapping: map<string, WikiInfo>)
    requires images == images0 - titles.Keys
    requires abstracts.items == abstracts0 - titles.Keys
    requires mapping0.Keys == titles.Keys
    requires forall q :: q in mapping0 ==> mapping0[q] == Info(titles, images0, abstracts0, q)
    modifies abstracts
    ensures mapping.Keys == titles.Keys + images0.Keys
    ensures forall q :: q in mapping ==> mapping[q] == Info(titles, images0, abstracts0, q)
    ensures abstracts.items == abstracts0 - titles.Keys - images0.Keys
  {
    mapping := mapping0;
    var todo := images.Keys;
    while todo != {}
      invariant todo <= images.Keys
      invariant forall q :: q in abstracts.items <==> q in abstracts0 && q !in titles && (q !in images0 || q in todo)
      invariant forall q :: q in abstracts.items ==> abstracts.items[q] == abstracts0[q]
      invariant forall q :: q in mapping <==> q in titles || (q in images0 && q !in todo)
      invariant forall q :: q in mapping ==> mapping[q] == Info(titles, images0, abstracts0, q)
      decreases todo
    {
      var q :| q in todo;
      assert q !in titles && q in images0;
      assert Info(titles, images0, abstracts0, q) == WikiInfo("", images[q], GetOr(abstracts.items, q, ""));
      mapping := mapping[q := WikiInfo("", images[q], GetOr(abstracts.items, q, ""))];
      abstracts.Pop(q);
      todo := todo - {q};
    }
    assert mapping.Keys == titles.Keys + images0.Keys;
    assert abstracts.items == abstracts0 - titles.Keys - images0.Keys;
  }

  /** The third loop: every QID left with only an abstract. */
  method AddRest(mapping0: map<string, WikiInfo>, titles: map<string, string>, ghost images0: map<string, string>,
                 abstracts: map<string, string>, ghost abstracts0: map<string, string>)
    returns (mapping: map<string, WikiInfo>)
    requires abstracts == abstracts0 - titles.Keys - images0.Keys
    requires mapping0.Keys == titles.Keys + images0.Keys
    requires forall q :: q in mapping0 ==> mapping0[q] == Info(titles, images0, abstracts0, q)
    ensures mapping.Keys == titles.Keys + images0.Keys + abstracts0.Keys
    ensures forall q :: q in mapping ==> mapping[q] == Info(titles, images0, abstracts0, q)
  {
    mapping := mapping0;
    var todo := abstracts.Keys;
    while todo != {}
      invariant todo <= abstracts.Keys
      invariant forall q :: q in mapping <==> q in mapping0 || (q in abstracts && q !in todo)
      invariant forall q :: q in mapping ==> mapping[q] == Info(titles, images0, abstracts0, q)
      decreases todo
    {
      var q :| q in todo;
      assert q !in titles && q !in images0 && q in abstracts0;
      assert Info(titles, images0, abstracts0, q) == WikiInfo("", "", abstracts[q]);
      mapping := mapping[q := WikiInfo("", "", abstracts[q])];
      todo := todo - {q};
    }
    assert forall q :: q in mapping <==> q in titles || q in images0 || q in abstracts0;
  }

  /** The entry the merged mapping holds for `q`. */
  function Info(titles: map<string, string>, images: map<string, string>, abstracts: map<string, string>, q: string): WikiInfo
  {
    WikiInfo(GetOr(titles, q, ""), GetOr(images, q, ""), GetOr(abstracts, q, ""))
  }

  /** What `combine_mappings` leaves in `mapping1`: a truthy (non-empty)
      value of `mapping2` fills a key that `mapping1` lacks or maps to `""`;
      everything else of `mapping1` stays. */
  function Combined(m1: map<string, string>, m2: map<string, string>): (r: map<string, string>)
    ensures forall k :: k in m1 && m1[k] != "" ==> k in r && r[k] == m1[k]
    ensures forall k :: k in m2 && m2[k] != "" && (k !in m1 || m1[k] == "") ==> k in r && r[k] == m2[k]
    ensures forall k :: k in r && k !in m1 ==> k in m2 && r[k] == m2[k] && r[k] != ""
    ensures forall k :: k in r <==> k in m1 || (k in m2 && m2[k] != "")
    ensures forall k :: k in m1 && (k !in m2 || m2[k] == "") ==> r[k] == m1[k]
  {
    map k | k in m1.Keys + m2.Keys && (k in m1 || m2[k] != "") ::
      if k in m2 && m2[k] != "" && (k !in m1 || m1[k] == "") then m2[k] else m1[k]
  }

  /** `combine_mappings`: fills `mapping1` in place from `mapping2` and
      returns `mapping1` itself. */
  method CombineMappings(mapping1: StrDict, mapping2: map<string, string>) returns (r: StrDict)
    modifies mapping1
    ensures r == mapping1
    ensures mapping1.items == Combined(old(mapping1.items), mapping2)
  {
    ghost var m1 := mapping1.items;
    var todo := mapping2.Keys;
    while todo != {}
      invariant todo <= mapping2.Keys
      invariant forall k :: k in mapping1.items <==> k in m1 || (k in mapping2 && k !in todo && mapping2[k] != "")
      invariant forall k :: k in mapping1.items ==>
                  mapping1.items[k] == if k in mapping2 && k !in todo && mapping2[k] != "" && (k !in m1 || m1[k] == "")
                                       then mapping2[k] else m1[k]
      decreases todo
    {
      var key :| key in todo;
      var val := mapping2[key];
      if val != "" && (key !in mapping1.items || mapping1.items[key] == "") {
        mapping1.items := mapping1.items[key := val];
      }
      todo := todo - {key};
    }
    r := mapping1;
  }
}
