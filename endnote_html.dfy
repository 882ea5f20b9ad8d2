/** Reading references out of an EndNote HTML export: the body is cut into
    entries at a fixed separator, each entry's lines are searched for
    labelled fields, and its links go to `eprint` or `url`. */
module EndnoteHtml {
  import opened Common
  import opened Text

  // ---------------------------------------------------------------------
  // Tables

  /** `mapping`: the label on the page and the field it fills, tried in this
      order on every line. */
  const Mapping: seq<(string, string)> := [
    ("Title", "title"), ("Journal", "journal"), ("DOI", "doi"),
    ("Author Address", "address"), ("Author", "author"), ("volume", "VL")]

  /** `type_mapping`. */
  const TypeMapping: map<string, string> := map["Journal Article" := "article", "Thesis" := "thesis", "Book" := "book"]

  /** The fields a label table fills are distinct. */
  predicate DistinctFields(labels: seq<(string, string)>) {
    forall a, b :: 0 <= a < b < |labels| ==> labels[a].1 != labels[b].1
  }

  /** No label of the table fills `key`. */
  predicate Unfilled(labels: seq<(string, string)>, key: string) {
    forall a :: 0 <= a < |labels| ==> labels[a].1 != key
  }

  /** The fields `mapping` fills are distinct, and none is ENTRYTYPE, eprint
      or url. */
  lemma MappingFields()
    ensures DistinctFields(Mapping)
    ensures Unfilled(Mapping, "ENTRYTYPE") && Unfilled(Mapping, "eprint") && Unfilled(Mapping, "url")
  {
  }

  /** The entry type for a `Reference Type` value: the known kinds map
      through `type_mapping`, every other kind is an article. */
  function EntryType(referenceType: string): (r: string)
    ensures referenceType in TypeMapping ==> r == TypeMapping[referenceType]
    ensures referenceType !in TypeMapping ==> r == "article"
  {
    if referenceType in TypeMapping then TypeMapping[referenceType] else "article"
  }

  // ---------------------------------------------------------------------
  // The body and its entries

  /** `html[html.find('<body>') + 6:]`; slicing past the end gives "". */
  function Body(html: string): string {
    var start := Find(html, "<body>") + 6;
    if start <= |html| then html[start..] else []
  }

  /** With a `<body>` tag, the body is what follows its first occurrence. */
  lemma BodyAfterTag(html: string)
    requires Contains(html, "<body>")
    ensures exists i :: && OccursAt(html, "<body>", i) && Body(html) == html[i + 6..]
                        && (forall j :: 0 <= j < i ==> !OccursAt(html, "<body>", j))
  {
    FindSpec(html, "<body>");
    var i := Find(html, "<body>");
    assert OccursAt(html, "<body>", i) && Body(html) == html[i + 6..];
  }

  /** Without one, `find` gives -1 and only the first five characters are
      dropped. */
  lemma BodyWithoutTag(html: string)
    requires !Contains(html, "<body>")
    ensures Body(html) == if |html| >= 5 then html[5..] else []
  {
    FindSpec(html, "<body>");
  }

  /** The separator between entries, `<p>\n<p>\n<p>`. */
  const Separator: string := "<p>\n<p>\n<p>"

  /** `re.split('(<p>\n<p>\n<p>)', html)`: the group keeps the separators as
      entries of their own. */
  function Entries(html: string): seq<string> {
    SplitKeep(Body(html), Separator)
  }

  /** `k` separators give `2k + 1` entries, the separators at odd positions. */
  lemma EntriesShape(html: string, k: nat)
    ensures |Entries(html)| == 2 * |Split(Body(html), Separator)| - 1
    ensures k < |Entries(html)| && k % 2 == 1 ==> Entries(html)[k] == Separator
  {
    if k < |Entries(html)| && k % 2 == 1 {
      SplitKeepSeparators(Body(html), Separator, k);
    }
  }

  // ---------------------------------------------------------------------
  // Patterns

  /** The end of the lazy group `(.+?)` that started before `m` and runs
      up to `m`: the first position from `m` on where `close` follows, unless
      a newline (which `.` does not match) or the end comes first. */
  function LazyEnd(s: string, m: nat, close: string): (r: Option<nat>)
    requires m <= |s|
    ensures r.Some? ==> m <= r.value && OccursAt(s, close, r.value)
    decreases |s| - m
  {
    if OccursAt(s, close, m) then Some(m)
    else if m < |s| && s[m] != '\n' then LazyEnd(s, m + 1, close)
    else None
  }

  /** The group of `LazyEnd` holds no newline and stops at the first `close`. */
  lemma {:induction false} LazyEndSpec(s: string, m: nat, close: string)
    requires m <= |s| && LazyEnd(s, m, close).Some?
    ensures forall p :: m <= p < LazyEnd(s, m, close).value ==> s[p] != '\n' && !OccursAt(s, close, p)
    decreases |s| - m
  {
    if !OccursAt(s, close, m) {
      LazyEndSpec(s, m + 1, close);
    }
  }

  /** `open + '(.+?)' + close` tried at position `i`: the group and the
      position after the match. */
  function GroupAt(open: string, close: string, s: string, i: nat): (r: Option<(string, nat)>)
    ensures r.Some? ==> i < r.value.1 <= |s|
  {
    var j := i + |open|;
    if j < |s| && s[i..j] == open && s[j] != '\n' then
      match LazyEnd(s, j + 1, close)
      case Some(m) => Some((s[j..m], m + |close|))
      case None => None
    else None
  }

  /** The group of the leftmost match, as `re.search(...).group(1)`. */
  function SearchGroup(open: string, close: string, s: string): Option<string> {
    match SearchFrom(s, 0, Matcher(open, close))
    case Some((_, g)) => Some(g.0)
    case None => None
  }

  function Matcher(open: string, close: string): (string, nat) -> Option<(string, nat)> {
    (t: string, i: nat) => GroupAt(open, close, t, i)
  }

  /** The groups of all matches, as `re.finditer` finds them: matches do
      not overlap, and the scan resumes after each one. */
  function Groups(open: string, close: string, s: string, from: nat): seq<string>
    decreases |s| - from
  {
    if from >= |s| then []
    else match GroupAt(open, close, s, from)
      case Some((g, e)) => [g] + Groups(open, close, s, e)
      case None => Groups(open, close, s, from + 1)
  }

  const ReferenceTypeTag: string := "<b>Reference Type: </b> "

  /** The opening of the pattern for a mapped label. */
  function LabelTag(name: string): string {
    "<b>" + name + ":</b> "
  }

  const HrefTag: string := "<A HREF=\""

  /** The `Author` pattern never matches where an `Author Address` label
      starts: the character after "Author" is a space, not a colon. */
  lemma AuthorIsNotAuthorAddress(s: string, i: nat)
    requires OccursAt(s, LabelTag("Author Address"), i)
    ensures GroupAt(LabelTag("Author"), "<p>", s, i).None?
  {
    var t := LabelTag("Author");
    var u := LabelTag("Author Address");
    assert s[i + 9] == u[9] == ' ';
    assert t[9] == ':';
    if i + |t| < |s| {
      assert s[i..i + |t|][9] == s[i + 9];
    }
  }

  // ---------------------------------------------------------------------
  // Filling one entry


  /** The search every line pattern makes, `re.search(open + '(.+?)<p>',
      line).group(1)`: the line functions below take it as a parameter. */
  function LineGroup(): (string, string) -> Option<string> {
    (open: string, line: string) => SearchGroup(open, "<p>", line)
  }

  /** The first `n` labels of the table applied to a line, in order; a label
      whose pattern matches sets its field to the group. */
  function MapLine(bib: Fields, line: string, group: (string, string) -> Option<string>, labels: seq<(string, string)>, n: nat): Fields
    requires n <= |labels|
  {
    if n == 0 then bib
    else
      var b := MapLine(bib, line, group, labels, n - 1);
      match group(LabelTag(labels[n - 1].0), line)
      case Some(v) => b[labels[n - 1].1 := v]
      case None => b
  }

  /** What a `Reference Type` line sets. */
  function ReadType(bib: Fields, line: string, group: (string, string) -> Option<string>): Fields {
    match group(ReferenceTypeTag, line)
    case Some(t) => bib["ENTRYTYPE" := EntryType(t)]
    case None => bib
  }

  /** One line: its `Reference Type`, then every label of the table. */
  function ReadLine(bib: Fields, line: string, group: (string, string) -> Option<string>, labels: seq<(string, string)>): Fields {
    MapLine(ReadType(bib, line, group), line, group, labels, |labels|)
  }

  /** The first `n` lines read in order. */
  function ReadLines(bib: Fields, lines: seq<string>, group: (string, string) -> Option<string>, labels: seq<(string, string)>, n: nat): Fields
    requires n <= |lines|
  {
    if n == 0 then bib else ReadLine(ReadLines(bib, lines, group, labels, n - 1), lines[n - 1], group, labels)
  }

  /** The first `n` links: to eprint when `isPdfUrl` holds, else to url. */
  function AddLinks(bib: Fields, hrefs: seq<string>, n: nat, isPdfUrl: string -> bool): Fields
    requires n <= |hrefs|
  {
    if n == 0 then bib
    else
      var b := AddLinks(bib, hrefs, n - 1, isPdfUrl);
      if isPdfUrl(hrefs[n - 1]) then b["eprint" := hrefs[n - 1]] else b["url" := hrefs[n - 1]]
  }

  /** The links of an entry, `re.finditer('<A HREF="(.+?)">', entry)`. */
  function Links(entry: string): seq<string> {
    Groups(HrefTag, "\">", entry, 0)
  }

  /** The dictionary one entry gives under a label table. */
  function EntryBib(entry: string, group: (string, string) -> Option<string>, labels: seq<(string, string)>, isPdfUrl: string -> bool): Fields {
    var lines := Split(entry, "\n");
    AddLinks(ReadLines(map[], lines, group, labels, |lines|), Links(entry), |Links(entry)|, isPdfUrl)
  }

  /** The body of the loop over an entry's lines in `loadRefsFromHTML`;
      `group` is the line search. */
  method ReadEntryLine(bib: Fields, line: string, group: (string, string) -> Option<string>, labels: seq<(string, string)>) returns (newBib: Fields)
    ensures newBib == ReadLine(bib, line, group, labels)
  {
    newBib := bib;
    var referenceType := group(ReferenceTypeTag, line);
    if referenceType.Some? {
      if referenceType.value in TypeMapping {
        newBib := newBib["ENTRYTYPE" := TypeMapping[referenceType.value]];
      } else {
        newBib := newBib["ENTRYTYPE" := "article"];
      }
    }
    ghost var lineStart := newBib;
    for m := 0 to |labels|
      invariant newBib == MapLine(lineStart, line, group, labels, m)
    {
      var found := group(LabelTag(labels[m].0), line);
      if found.Some? {
        newBib := newBib[labels[m].1 := found.value];
      }
    }
  }

  /** The body of the loop over entries in `loadRefsFromHTML`: the lines,
      then the links. */
  method ReadEntry(entry: string, group: (string, string) -> Option<string>, labels: seq<(string, string)>, isPdfUrl: string -> bool) returns (newBib: Fields)
    ensures newBib == EntryBib(entry, group, labels, isPdfUrl)
  {
    var lines := Split(entry, "\n");
    newBib := map[];
    for l := 0 to |lines|
      invariant newBib == ReadLines(map[], lines, group, labels, l)
    {
      newBib := ReadEntryLine(newBib, lines[l], group, labels);
    }
    ghost var read := newBib;
    var hrefs := Links(entry);
    for h := 0 to |hrefs|
      invariant newBib == AddLinks(read, hrefs, h, isPdfUrl)
    {
      if isPdfUrl(hrefs[h]) {
        newBib := newBib["eprint" := hrefs[h]];
      } else {
        newBib := newBib["url" := hrefs[h]];
      }
    }
  }

  /** `loadRefsFromHTML` on the text of the file: one dictionary per entry,
      separators included, each as `EntryBib` under `mapping` gives it. */
  method LoadRefsFromHtml(html: string, isPdfUrl: string -> bool) returns (res: seq<Fields>)
    ensures |res| == |Entries(html)|
    ensures forall k :: 0 <= k < |res| ==> res[k] == EntryBib(Entries(html)[k], LineGroup(), Mapping, isPdfUrl)
  {
    var body := Body(html);
    var entries := SplitKeep(body, Separator);
    res := [];
    for e := 0 to |entries|
      invariant |res| == e
      invariant forall k :: 0 <= k < e ==> res[k] == EntryBib(entries[k], LineGroup(), Mapping, isPdfUrl)
    {
      var newBib := ReadEntry(entries[e], LineGroup(), Mapping, isPdfUrl);
      res := res + [newBib];
    }
  }

  // ---------------------------------------------------------------------
  // What the entries hold

  /** Labels that do not fill `key` leave it as it was. */
  lemma {:induction false} MapLineKeeps(bib: Fields, line: string, group: (string, string) -> Option<string>, labels: seq<(string, string)>, n: nat, key: string)
    requires n <= |labels| && Unfilled(labels, key)
    ensures key in MapLine(bib, line, group, labels, n) <==> key in bib
    ensures key in bib ==> MapLine(bib, line, group, labels, n)[key] == bib[key]
  {
    if n > 0 {
      MapLineKeeps(bib, line, group, labels, n - 1, key);
    }
  }

  /** The label at position `a` sets its field on a line where it matches;
      the later labels fill other fields. */
  lemma {:induction false} MapLineSets(bib: Fields, line: string, group: (string, string) -> Option<string>, labels: seq<(string, string)>, n: nat, a: nat, v: string)
    requires a < n <= |labels| && DistinctFields(labels)
    requires group(LabelTag(labels[a].0), line) == Some(v)
    ensures labels[a].1 in MapLine(bib, line, group, labels, n) && MapLine(bib, line, group, labels, n)[labels[a].1] == v
  {
    if a < n - 1 {
      MapLineSets(bib, line, group, labels, n - 1, a, v);
      assert labels[a].1 != labels[n - 1].1;
    }
  }

  /** A label that does not match leaves its field as it was. */
  lemma {:induction false} MapLineUnmatched(bib: Fields, line: string, group: (string, string) -> Option<string>, labels: seq<(string, string)>, n: nat, a: nat)
    requires n <= |labels| && a < |labels| && DistinctFields(labels)
    requires group(LabelTag(labels[a].0), line).None?
    ensures labels[a].1 in MapLine(bib, line, group, labels, n) <==> labels[a].1 in bib
    ensures labels[a].1 in bib ==> MapLine(bib, line, group, labels, n)[labels[a].1] == bib[labels[a].1]
  {
    if n > 0 {
      MapLineUnmatched(bib, line, group, labels, n - 1, a);
      assert n - 1 != a ==> labels[a].1 != labels[n - 1].1;
    }
  }

  /** The value of a labelled field comes from the last line on which its
      label matches: later lines overwrite earlier ones. */
  lemma {:induction false} LastLineWins(bib: Fields, lines: seq<string>, group: (string, string) -> Option<string>, labels: seq<(string, string)>, n: nat, k: nat, a: nat, v: string)
    requires k < n <= |lines| && a < |labels| && DistinctFields(labels) && labels[a].1 != "ENTRYTYPE"
    requires group(LabelTag(labels[a].0), lines[k]) == Some(v)
    requires forall j :: k < j < n ==> group(LabelTag(labels[a].0), lines[j]).None?
    ensures labels[a].1 in ReadLines(bib, lines, group, labels, n) && ReadLines(bib, lines, group, labels, n)[labels[a].1] == v
  {
    var b := ReadType(ReadLines(bib, lines, group, labels, n - 1), lines[n - 1], group);
    if k == n - 1 {
      MapLineSets(b, lines[n - 1], group, labels, |labels|, a, v);
    } else {
      LastLineWins(bib, lines, group, labels, n - 1, k, a, v);
      MapLineUnmatched(b, lines[n - 1], group, labels, |labels|, a);
    }
  }

  /** Lines set ENTRYTYPE exactly when one of them has a `Reference Type`. */
  lemma {:induction false} EntryTypePresent(bib: Fields, lines: seq<string>, group: (string, string) -> Option<string>, labels: seq<(string, string)>, n: nat)
    requires n <= |lines| && "ENTRYTYPE" !in bib && Unfilled(labels, "ENTRYTYPE")
    ensures "ENTRYTYPE" in ReadLines(bib, lines, group, labels, n) <==>
      exists j :: 0 <= j < n && group(ReferenceTypeTag, lines[j]).Some?
  {
    if n > 0 {
      EntryTypePresent(bib, lines, group, labels, n - 1);
      MapLineKeeps(ReadType(ReadLines(bib, lines, group, labels, n - 1), lines[n - 1], group), lines[n - 1], group, labels, |labels|, "ENTRYTYPE");
    }
  }

  /** The last link `isPdfUrl` accepts is the eprint, and the last it refuses
      is the url. */
  lemma {:induction false} LastLinkWins(bib: Fields, hrefs: seq<string>, n: nat, k: nat, isPdfUrl: string -> bool)
    requires k < n <= |hrefs|
    requires forall j :: k < j < n ==> isPdfUrl(hrefs[j]) != isPdfUrl(hrefs[k])
    ensures var key := if isPdfUrl(hrefs[k]) then "eprint" else "url";
      key in AddLinks(bib, hrefs, n, isPdfUrl) && AddLinks(bib, hrefs, n, isPdfUrl)[key] == hrefs[k]
  {
    if k < n - 1 {
      LastLinkWins(bib, hrefs, n - 1, k, isPdfUrl);
    }
  }

  /** Links fill only eprint and url. */
  lemma {:induction false} AddLinksKeeps(bib: Fields, hrefs: seq<string>, n: nat, isPdfUrl: string -> bool, key: string)
    requires n <= |hrefs| && key != "eprint" && key != "url"
    ensures key in AddLinks(bib, hrefs, n, isPdfUrl) <==> key in bib
    ensures key in bib ==> AddLinks(bib, hrefs, n, isPdfUrl)[key] == bib[key]
  {
    if n > 0 {
      AddLinksKeeps(bib, hrefs, n - 1, isPdfUrl, key);
    }
  }

  /** An entry has an ENTRYTYPE exactly when one of its lines has a
      `Reference Type`. */
  lemma EntryHasType(entry: string, group: (string, string) -> Option<string>, isPdfUrl: string -> bool)
    ensures "ENTRYTYPE" in EntryBib(entry, group, Mapping, isPdfUrl) ==>
      exists j :: 0 <= j < |Split(entry, "\n")| && group(ReferenceTypeTag, Split(entry, "\n")[j]).Some?
    ensures forall j :: 0 <= j < |Split(entry, "\n")| && group(ReferenceTypeTag, Split(entry, "\n")[j]).Some? ==>
      "ENTRYTYPE" in EntryBib(entry, group, Mapping, isPdfUrl)
  {
    var lines := Split(entry, "\n");
    MappingFields();
    var read := ReadLines(map[], lines, group, Mapping, |lines|);
    EntryTypePresent(map[], lines, group, Mapping, |lines|);
    AddLinksKeeps(read, Links(entry), |Links(entry)|, isPdfUrl, "ENTRYTYPE");
    assert EntryBib(entry, group, Mapping, isPdfUrl) == AddLinks(read, Links(entry), |Links(entry)|, isPdfUrl);
    assert "ENTRYTYPE" in EntryBib(entry, group, Mapping, isPdfUrl) <==> "ENTRYTYPE" in read;
    assert "ENTRYTYPE" in read <==> exists j :: 0 <= j < |lines| && group(ReferenceTypeTag, lines[j]).Some?;
  }

  /** In an entry, the field of mapping label `a` holds the group of the last
      line on which that label matches. */
  lemma EntryFieldFromLastLine(entry: string, group: (string, string) -> Option<string>, isPdfUrl: string -> bool, k: nat, a: nat, v: string)
    requires k < |Split(entry, "\n")| && a < |Mapping|
    requires group(LabelTag(Mapping[a].0), Split(entry, "\n")[k]) == Some(v)
    requires forall j :: k < j < |Split(entry, "\n")| ==> group(LabelTag(Mapping[a].0), Split(entry, "\n")[j]).None?
    ensures Mapping[a].1 in EntryBib(entry, group, Mapping, isPdfUrl) && EntryBib(entry, group, Mapping, isPdfUrl)[Mapping[a].1] == v
  {
    var lines := Split(entry, "\n");
    MappingFields();
    LastLineWins(map[], lines, group, Mapping, |lines|, k, a, v);
    AddLinksKeeps(ReadLines(map[], lines, group, Mapping, |lines|), Links(entry), |Links(entry)|, isPdfUrl, Mapping[a].1);
  }

  // ---------------------------------------------------------------------
  // Separator entries

  /** No pattern matches where a character of its opening never occurs. */
  lemma GroupNeedsOpen(open: string, close: string, s: string, q: nat)
    requires q < |open| && open[q] !in s
    ensures forall i: nat :: GroupAt(open, close, s, i).None?
  {
    forall i: nat ensures GroupAt(open, close, s, i).None? {
      if i + |open| < |s| {
        assert s[i..i + |open|][q] == s[i + q];
      }
    }
  }

  /** Then the search finds nothing. */
  lemma SearchWithoutOpen(open: string, close: string, s: string, q: nat)
    requires q < |open| && open[q] !in s
    ensures SearchGroup(open, close, s).None?
  {
    GroupNeedsOpen(open, close, s, q);
    var at := Matcher(open, close);
    assert forall i: nat :: at(s, i).None?;
  }

  lemma {:induction false} GroupsNone(open: string, close: string, s: string, from: nat)
    requires forall i: nat :: GroupAt(open, close, s, i).None?
    ensures Groups(open, close, s, from) == []
    decreases |s| - from
  {
    if from < |s| {
      GroupsNone(open, close, s, from + 1);
    }
  }

  /** Neither the `Reference Type` pattern nor any label pattern matches
      on the line. */
  ghost predicate NoLabelMatch(group: (string, string) -> Option<string>, line: string) {
    && group(ReferenceTypeTag, line).None?
    && forall name :: group(LabelTag(name), line).None?
  }

  /** Lines on which no label pattern matches give nothing. */
  lemma {:induction false} ReadLinesEmpty(lines: seq<string>, group: (string, string) -> Option<string>, labels: seq<(string, string)>, n: nat)
    requires n <= |lines|
    requires forall j :: 0 <= j < |lines| ==> NoLabelMatch(group, lines[j])
    ensures ReadLines(map[], lines, group, labels, n) == map[]
  {
    if n > 0 {
      ReadLinesEmpty(lines, group, labels, n - 1);
      MapLineEmpty(lines[n - 1], group, labels, |labels|);
    }
  }

  lemma {:induction false} MapLineEmpty(line: string, group: (string, string) -> Option<string>, labels: seq<(string, string)>, n: nat)
    requires n <= |labels| && NoLabelMatch(group, line)
    ensures MapLine(map[], line, group, labels, n) == map[]
  {
    if n > 0 {
      MapLineEmpty(line, group, labels, n - 1);
    }
  }

  /** An entry without the letters 'b' and 'A' yields an empty dictionary:
      every label pattern opens with "<b" and the link pattern with "<A". */
  lemma EntryWithoutTags(entry: string, labels: seq<(string, string)>, isPdfUrl: string -> bool)
    requires 'b' !in entry && 'A' !in entry
    ensures EntryBib(entry, LineGroup(), labels, isPdfUrl) == map[]
  {
    var lines := Split(entry, "\n");
    var group := LineGroup();
    forall j | 0 <= j < |lines| ensures NoLabelMatch(group, lines[j]) {
      SplitChars(entry, "\n", j, 'b');
      assert ReferenceTypeTag[1] == 'b';
      SearchWithoutOpen(ReferenceTypeTag, "<p>", lines[j], 1);
      forall name ensures group(LabelTag(name), lines[j]).None? {
        assert LabelTag(name)[1] == 'b';
        SearchWithoutOpen(LabelTag(name), "<p>", lines[j], 1);
      }
    }
    ReadLinesEmpty(lines, group, labels, |lines|);
    assert HrefTag[1] == 'A';
    GroupNeedsOpen(HrefTag, "\">", entry, 1);
    GroupsNone(HrefTag, "\">", entry, 0);
  }

  /** A separator entry yields an empty dictionary. */
  lemma SeparatorEntryIsEmpty(labels: seq<(string, string)>, isPdfUrl: string -> bool)
    ensures EntryBib(Separator, LineGroup(), labels, isPdfUrl) == map[]
  {
    assert 'b' !in Separator && 'A' !in Separator;
    EntryWithoutTags(Separator, labels, isPdfUrl);
  }
}
