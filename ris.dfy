/** The RIS serialiser: every BibTeX entry becomes a block of tagged lines
    from "TY  - " to "ER  - ", and the entry-type tables translate between
    BibTeX and RIS in both directions. */
module Ris {
  import opened Common
  import opened Text

  /** The BibTeX fields copied to RIS, each with its tag, in output order. */
  const Mapping: seq<(string, string)> := [
    ("address", "AD"), ("abstract", "AB"), ("doi", "DO"), ("eprint", "LK"),
    ("editor", "ED"), ("issue", "IS"), ("journal", "JF"), ("publisher", "PB"),
    ("title", "TI"), ("url", "UR"), ("volume", "VL")]

  const TypeMapping: map<string, string> :=
    map["inproceedings" := "CONF", "article" := "JOUR", "thesis" := "THES", "book" := "BOOK"]

  /** The type table read backwards: each RIS type to its BibTeX type. */
  const ReverseTypeMapping: map<string, string> :=
    map["CONF" := "inproceedings", "JOUR" := "article", "THES" := "thesis", "BOOK" := "book"]

  /** The reverse table is the inverse of the type table, in both
      directions. */
  lemma ReverseIsInverse()
    ensures ReverseTypeMapping.Keys == TypeMapping.Values
    ensures forall t :: t in TypeMapping ==> ReverseTypeMapping[TypeMapping[t]] == t
    ensures forall r :: r in ReverseTypeMapping ==> TypeMapping[ReverseTypeMapping[r]] == r
  {
    assert TypeMapping["inproceedings"] == "CONF" && TypeMapping["article"] == "JOUR";
    assert TypeMapping["thesis"] == "THES" && TypeMapping["book"] == "BOOK";
  }

  /** The RIS type of a BibTeX entry type, compared in lower case; any
      other type is a journal article. */
  function RisType(entrytype: string): (r: string)
    ensures Lower(entrytype) in TypeMapping ==> r == TypeMapping[Lower(entrytype)]
    ensures Lower(entrytype) !in TypeMapping ==> r == "JOUR"
  {
    var t := Lower(entrytype);
    if t in TypeMapping then TypeMapping[t] else "JOUR"
  }

  // ---------------------------------------------------------------------
  // Collecting lines, stopping at the first exception

  /** The lines of every element in order, or the first element's
      exception. */
  function Collect<T>(xs: seq<T>, f: T -> Result<seq<string>>): Result<seq<string>>
    decreases |xs|
  {
    if xs == [] then Ok([])
    else match Collect(xs[..|xs| - 1], f)
      case Err(e) => Err(e)
      case Ok(ls) =>
        match f(xs[|xs| - 1])
        case Err(e) => Err(e)
        case Ok(more) => Ok(ls + more)
  }

  /** Once a prefix raises, the whole sequence raises the same exception. */
  lemma {:induction false} CollectStops<T>(xs: seq<T>, k: nat, f: T -> Result<seq<string>>)
    requires k <= |xs| && Collect(xs[..k], f).Err?
    ensures Collect(xs, f) == Collect(xs[..k], f)
    decreases |xs|
  {
    if k < |xs| {
      var init := xs[..|xs| - 1];
      assert init[..k] == xs[..k];
      CollectStops(init, k, f);
    } else {
      assert xs[..k] == xs;
    }
  }

  /** Collecting the lines of `xs + [x]`. */
  lemma CollectSnoc<T>(xs: seq<T>, x: T, f: T -> Result<seq<string>>)
    ensures Collect(xs + [x], f) ==
      match Collect(xs, f)
      case Err(e) => Err(e)
      case Ok(ls) => (match f(x) case Err(e) => Err(e) case Ok(more) => Ok(ls + more))
  {
    assert (xs + [x])[..|xs + [x]| - 1] == xs;
  }

  /** One step of a loop that collects lines: the prefix up to `i + 1`
      collects what the prefix up to `i` did plus the lines of `xs[i]`. */
  lemma CollectStep<T>(xs: seq<T>, i: nat, f: T -> Result<seq<string>>, lines: seq<string>, next: Result<seq<string>>)
    requires i < |xs| && Collect(xs[..i], f) == Ok(lines) && f(xs[i]) == next
    ensures next.Err? ==> Collect(xs[..i + 1], f) == Err(next.error)
    ensures next.Ok? ==> Collect(xs[..i + 1], f) == Ok(lines + next.value)
  {
    assert xs[..i + 1] == xs[..i] + [xs[i]];
    CollectSnoc(xs[..i], xs[i], f);
  }

  // ---------------------------------------------------------------------
  // One entry

  /** The "AU" line of one author: family, then given, then the middle name
      after a space when there is one. An author without a family or given
      name raises KeyError, the family checked first. */
  function AuthorLine(a: Author): (r: Result<seq<string>>)
    ensures r.Err? <==> a.family.None? || a.given.None?
    ensures r.Ok? ==> r.value == [AuText(a)]
  {
    if a.family.None? then Err(KeyError("family"))
    else if a.given.None? then Err(KeyError("given"))
    else Ok([AuText(a)])
  }

  function AuText(a: Author): string
    requires a.family.Some? && a.given.Some?
  {
    "AU  - " + a.family.value + ", " + a.given.value
      + (if a.middle.Some? && a.middle.value != "" then " " + a.middle.value else "")
  }

  /** Every author gets one line, in order, when each has a family and a
      given name; otherwise the first one missing either raises. */
  lemma {:induction false} AuthorLinesSpec(authors: seq<Author>)
    ensures Collect(authors, AuthorLine).Ok? <==>
      forall k :: 0 <= k < |authors| ==> authors[k].family.Some? && authors[k].given.Some?
    ensures Collect(authors, AuthorLine).Ok? ==>
      |Collect(authors, AuthorLine).value| == |authors| &&
      forall k :: 0 <= k < |authors| ==> Collect(authors, AuthorLine).value[k] == AuText(authors[k])
    decreases |authors|
  {
    if authors != [] {
      var init := authors[..|authors| - 1];
      AuthorLinesSpec(init);
      assert forall k :: 0 <= k < |init| ==> init[k] == authors[k];
    }
  }

  /** The page lines: the first and the last piece of the page range split
      on '-', or nothing without a page range. */
  function PageLines(entry: Fields): seq<string> {
    if HasValue(entry, "pages") then
      var bits := Split(entry["pages"], "-");
      ["SP  - " + bits[0], "EP  - " + bits[|bits| - 1]]
    else []
  }

  /** The lines of the mapped fields among `m` that hold a value, in table
      order. */
  function MappedLines(entry: Fields, m: seq<(string, string)>): seq<string>
    decreases |m|
  {
    if m == [] then []
    else
      var p := m[|m| - 1];
      MappedLines(entry, m[..|m| - 1]) + (if HasValue(entry, p.0) then [p.1 + "  - " + entry[p.0]] else [])
  }

  /** Every mapped line comes from a mapped field that holds a value, and
      every such field gives its line. */
  lemma {:induction false} MappedLinesSpec(entry: Fields, m: seq<(string, string)>)
    ensures |MappedLines(entry, m)| <= |m|
    ensures forall l :: l in MappedLines(entry, m) <==>
      exists p :: p in m && HasValue(entry, p.0) && l == p.1 + "  - " + entry[p.0]
    decreases |m|
  {
    if m != [] {
      var init := m[..|m| - 1];
      var p := m[|m| - 1];
      MappedLinesSpec(entry, init);
      assert m == init + [p];
      forall l ensures l in MappedLines(entry, m) <==>
        exists q :: q in m && HasValue(entry, q.0) && l == q.1 + "  - " + entry[q.0]
      {
        if l in MappedLines(entry, m) && l !in MappedLines(entry, init) {
          assert HasValue(entry, p.0) && l == p.1 + "  - " + entry[p.0];
        }
        if exists q :: q in m && HasValue(entry, q.0) && l == q.1 + "  - " + entry[q.0] {
          var q :| q in m && HasValue(entry, q.0) && l == q.1 + "  - " + entry[q.0];
          if q != p {
            assert q in init;
          }
        }
      }
    }
  }

  /** The lines of one entry: its type, its authors, its year (empty when
      absent), its pages, its mapped fields and the end marker. A missing
      author list or entry type raises KeyError, the author list checked
      first; `parse` is the author parser. */
  function EntryLines(entry: Fields, parse: string -> seq<Author>): Result<seq<string>> {
    if "author" !in entry then Err(KeyError("author"))
    else if "ENTRYTYPE" !in entry then Err(KeyError("ENTRYTYPE"))
    else match Collect(parse(entry["author"]), AuthorLine)
      case Err(e) => Err(e)
      case Ok(au) => Ok(["TY  - " + RisType(entry["ENTRYTYPE"])] + au
        + ["PY  - " + GetOr(entry, "year", "")] + PageLines(entry)
        + MappedLines(entry, Mapping) + ["ER  - "])
  }

  /** The two-letter tag a line starts with. */
  function Tag(line: string): string {
    if |line| >= 2 then line[..2] else line
  }

  /** The number of lines with tag `t`. */
  function CountTag(lines: seq<string>, t: string): nat
    decreases |lines|
  {
    if lines == [] then 0
    else CountTag(lines[..|lines| - 1], t) + (if Tag(lines[|lines| - 1]) == t then 1 else 0)
  }

  lemma {:induction false} CountTagConcat(a: seq<string>, b: seq<string>, t: string)
    ensures CountTag(a + b, t) == CountTag(a, t) + CountTag(b, t)
    decreases |b|
  {
    if b == [] {
      assert a + b == a;
    } else {
      assert (a + b)[..|a + b| - 1] == a + b[..|b| - 1];
      CountTagConcat(a, b[..|b| - 1], t);
    }
  }

  lemma {:induction false} CountTagNone(lines: seq<string>, t: string)
    requires t == "TY" || t == "ER"
    requires Inner(lines)
    ensures CountTag(lines, t) == 0
    decreases |lines|
  {
    if lines != [] {
      CountTagNone(lines[..|lines| - 1], t);
    }
  }

  lemma TagOf(tag: string, rest: string)
    requires |tag| == 2
    ensures Tag(tag + rest) == tag
  {
    assert (tag + rest)[..2] == tag;
  }

  /** Neither a TY nor an ER line. */
  predicate Inner(lines: seq<string>) {
    forall k :: 0 <= k < |lines| ==> Tag(lines[k]) != "TY" && Tag(lines[k]) != "ER"
  }

  lemma InnerConcat(a: seq<string>, b: seq<string>)
    requires Inner(a) && Inner(b)
    ensures Inner(a + b)
  {
    forall k | 0 <= k < |a + b| ensures Tag((a + b)[k]) != "TY" && Tag((a + b)[k]) != "ER" {
      if k < |a| {
        assert (a + b)[k] == a[k];
      } else {
        assert (a + b)[k] == b[k - |a|];
      }
    }
  }

  lemma InnerAuthors(authors: seq<Author>)
    requires Collect(authors, AuthorLine).Ok?
    ensures Inner(Collect(authors, AuthorLine).value)
  {
    AuthorLinesSpec(authors);
    var au := Collect(authors, AuthorLine).value;
    forall k | 0 <= k < |au| ensures Tag(au[k]) == "AU" {
      var l := au[k];
      assert l == "AU" + l[2..];
      TagOf("AU", l[2..]);
    }
  }

  lemma InnerYearAndPages(entry: Fields)
    ensures Inner(["PY  - " + GetOr(entry, "year", "")] + PageLines(entry))
  {
    var ls := ["PY  - " + GetOr(entry, "year", "")] + PageLines(entry);
    forall k | 0 <= k < |ls| ensures Tag(ls[k]) != "TY" && Tag(ls[k]) != "ER" {
      var l := ls[k];
      assert l[..2] == "PY" || l[..2] == "SP" || l[..2] == "EP";
    }
  }

  /** Tags that are neither TY nor ER. */
  predicate InnerTags(m: seq<(string, string)>) {
    forall k :: 0 <= k < |m| ==> |m[k].1| == 2 && m[k].1 != "TY" && m[k].1 != "ER"
  }

  lemma {:induction false} InnerMappedOver(entry: Fields, m: seq<(string, string)>)
    requires InnerTags(m)
    ensures Inner(MappedLines(entry, m))
    decreases |m|
  {
    if m != [] {
      var p := m[|m| - 1];
      var init := m[..|m| - 1];
      assert InnerTags(init) by {
        forall k | 0 <= k < |init| ensures init[k] == m[k] { }
      }
      InnerMappedOver(entry, init);
      if HasValue(entry, p.0) {
        TagOf(p.1, "  - " + entry[p.0]);
        assert p.1 + "  - " + entry[p.0] == p.1 + ("  - " + entry[p.0]);
        InnerConcat(MappedLines(entry, init), [p.1 + "  - " + entry[p.0]]);
      } else {
        assert MappedLines(entry, m) == MappedLines(entry, init);
      }
    }
  }

  lemma InnerMapped(entry: Fields)
    ensures Inner(MappedLines(entry, Mapping))
  {
    InnerMappedOver(entry, Mapping);
  }

  /** An entry that does not raise gives exactly one TY line, first, with
      its RIS type, and exactly one ER line, last. */
  lemma EntryLinesEnds(entry: Fields, parse: string -> seq<Author>)
    requires EntryLines(entry, parse).Ok?
    ensures var ls := EntryLines(entry, parse).value;
      && ls[0] == "TY  - " + RisType(entry["ENTRYTYPE"])
      && ls[|ls| - 1] == "ER  - "
      && CountTag(ls, "TY") == 1 && CountTag(ls, "ER") == 1
  {
    var ls := EntryLines(entry, parse).value;
    var au := Collect(parse(entry["author"]), AuthorLine).value;
    var mid := au + (["PY  - " + GetOr(entry, "year", "")] + PageLines(entry)) + MappedLines(entry, Mapping);
    var first := "TY  - " + RisType(entry["ENTRYTYPE"]);
    assert ls == [first] + mid + ["ER  - "];
    InnerMiddle(entry, au);
    BlockCounts(first, mid);
  }

  /** The author lines follow the TY line, one per author and in order, and
      then the year line. */
  lemma EntryLinesAuthors(entry: Fields, parse: string -> seq<Author>)
    requires EntryLines(entry, parse).Ok?
    ensures var ls := EntryLines(entry, parse).value;
      var authors := parse(entry["author"]);
      && |ls| >= 3 + |authors|
      && (forall k :: 0 <= k < |authors| ==>
        authors[k].family.Some? && authors[k].given.Some? && ls[1 + k] == AuText(authors[k]))
      && ls[1 + |authors|] == "PY  - " + GetOr(entry, "year", "")
  {
    var ls := EntryLines(entry, parse).value;
    var authors := parse(entry["author"]);
    var au := Collect(authors, AuthorLine).value;
    AuthorLinesSpec(authors);
    var rest := PageLines(entry) + MappedLines(entry, Mapping) + ["ER  - "];
    assert ls == ["TY  - " + RisType(entry["ENTRYTYPE"])] + au + ["PY  - " + GetOr(entry, "year", "")] + rest;
  }

  lemma InnerMiddle(entry: Fields, au: seq<string>)
    requires "author" in entry
    requires exists parse: string -> seq<Author> :: Collect(parse(entry["author"]), AuthorLine) == Ok(au)
    ensures Inner(au + (["PY  - " + GetOr(entry, "year", "")] + PageLines(entry)) + MappedLines(entry, Mapping))
  {
    var parse: string -> seq<Author> :| Collect(parse(entry["author"]), AuthorLine) == Ok(au);
    InnerAuthors(parse(entry["author"]));
    InnerYearAndPages(entry);
    InnerMapped(entry);
    InnerConcat(au, ["PY  - " + GetOr(entry, "year", "")] + PageLines(entry));
    InnerConcat(au + (["PY  - " + GetOr(entry, "year", "")] + PageLines(entry)), MappedLines(entry, Mapping));
  }

  /** A block opened by a TY line and closed by an ER line, with neither in
      between, counts one of each. */
  lemma BlockCounts(first: string, mid: seq<string>)
    requires |first| >= 2 && first[..2] == "TY" && Inner(mid)
    ensures CountTag([first] + mid + ["ER  - "], "TY") == 1
    ensures CountTag([first] + mid + ["ER  - "], "ER") == 1
  {
    CountTagNone(mid, "TY");
    CountTagNone(mid, "ER");
    TagOf("ER", "  - ");
    assert [first][..0] == [] && ["ER  - "][..0] == [];
    CountTagConcat([first], mid, "TY");
    CountTagConcat([first] + mid, ["ER  - "], "TY");
    CountTagConcat([first], mid, "ER");
    CountTagConcat([first] + mid, ["ER  - "], "ER");
  }

  /** Splitting on '-' at the first dash. */
  lemma SplitAtDash(x: string, rest: string)
    requires !Contains(x, "-")
    ensures Split(x + "-" + rest, "-") == [x] + Split(rest, "-")
  {
    var s := x + "-" + rest;
    assert OccursAt(s, "-", |x|);
    FindSpec(s, "-");
    var k := Find(s, "-");
    if k < |x| {
      assert OccursAt(x, "-", k);
    }
    assert k == |x|;
    assert s[..k] == x && s[k + 1..] == rest;
  }

  /** `bits = pages.split('-')` keeps empty pieces, so a double dash still
      gives the first and the last page. */
  lemma PageLinesOfRange(entry: Fields, a: string, b: string)
    requires "pages" in entry && entry["pages"] == a + "--" + b
    requires !Contains(a, "-") && !Contains(b, "-")
    ensures PageLines(entry) == ["SP  - " + a, "EP  - " + b]
  {
    assert a + "--" + b == a + "-" + ("" + "-" + b);
    SplitAtDash(a, "" + "-" + b);
    assert !Contains("", "-");
    SplitAtDash("", b);
    FindSpec(b, "-");
    assert "" + "-" + b == "-" + b;
  }

  /** Pages without a dash are both the start and the end page. */
  lemma PageLinesWithoutDash(entry: Fields)
    requires HasValue(entry, "pages") && !Contains(entry["pages"], "-")
    ensures PageLines(entry) == ["SP  - " + entry["pages"], "EP  - " + entry["pages"]]
  {
    FindSpec(entry["pages"], "-");
  }

  /** The lines of all entries, in order. */
  function ExportLines(entries: seq<Fields>, parse: string -> seq<Author>): Result<seq<string>> {
    Collect(entries, e => EntryLines(e, parse))
  }

  /** One TY line and one ER line per entry. */
  lemma {:induction false} ExportLinesCount(entries: seq<Fields>, parse: string -> seq<Author>)
    requires ExportLines(entries, parse).Ok?
    ensures CountTag(ExportLines(entries, parse).value, "TY") == |entries|
    ensures CountTag(ExportLines(entries, parse).value, "ER") == |entries|
    decreases |entries|
  {
    if entries != [] {
      var init := entries[..|entries| - 1];
      var e := entries[|entries| - 1];
      var f := (x: Fields) => EntryLines(x, parse);
      assert ExportLines(init, parse) == Collect(init, f);
      assert Collect(init, f).Ok?;
      ExportLinesCount(init, parse);
      EntryLinesEnds(e, parse);
      CountTagConcat(Collect(init, f).value, EntryLines(e, parse).value, "TY");
      CountTagConcat(Collect(init, f).value, EntryLines(e, parse).value, "ER");
    }
  }

  /** The author loop of `exportBibToRIS`. */
  method AuthorBlock(authors: seq<Author>) returns (r: Result<seq<string>>)
    ensures r == Collect(authors, AuthorLine)
  {
    var block: seq<string> := [];
    for j := 0 to |authors|
      invariant Collect(authors[..j], AuthorLine) == Ok(block)
    {
      var author := authors[j];
      CollectStep(authors, j, AuthorLine, block, AuthorLine(author));
      if author.family.None? {
        CollectStops(authors, j + 1, AuthorLine);
        return Err(KeyError("family"));
      }
      if author.given.None? {
        CollectStops(authors, j + 1, AuthorLine);
        return Err(KeyError("given"));
      }
      var auLine := "AU  - " + author.family.value + ", " + author.given.value;
      if author.middle.Some? && author.middle.value != "" {
        auLine := auLine + " " + author.middle.value;
      }
      assert auLine == AuText(author);
      block := block + [auLine];
    }
    assert authors[..|authors|] == authors;
    return Ok(block);
  }

  /** The mapped-field loop of `exportBibToRIS`. */
  method MappedBlock(entry: Fields) returns (block: seq<string>)
    ensures block == MappedLines(entry, Mapping)
  {
    block := [];
    for j := 0 to |Mapping|
      invariant block == MappedLines(entry, Mapping[..j])
    {
      var eq := Mapping[j];
      assert Mapping[..j + 1][..j] == Mapping[..j];
      if HasValue(entry, eq.0) {
        block := block + [eq.1 + "  - " + entry[eq.0]];
      }
    }
    assert Mapping[..|Mapping|] == Mapping;
  }

  /** The body of the entry loop of `exportBibToRIS`. */
  method EntryBlock(entry: Fields, parse: string -> seq<Author>) returns (r: Result<seq<string>>)
    ensures r == EntryLines(entry, parse)
  {
    if "author" !in entry {
      return Err(KeyError("author"));
    }
    var authors := parse(entry["author"]);
    if "ENTRYTYPE" !in entry {
      return Err(KeyError("ENTRYTYPE"));
    }
    var risType := "JOUR";
    if Lower(entry["ENTRYTYPE"]) in TypeMapping {
      risType := TypeMapping[Lower(entry["ENTRYTYPE"])];
    }
    var au := AuthorBlock(authors);
    if au.Err? {
      return Err(au.error);
    }
    assert risType == RisType(entry["ENTRYTYPE"]);
    var block := ["TY  - " + risType] + au.value;
    block := block + ["PY  - " + GetOr(entry, "year", "")];
    ghost var head := block;
    if HasValue(entry, "pages") {
      var bits := Split(entry["pages"], "-");
      block := block + ["SP  - " + bits[0]];
      block := block + ["EP  - " + bits[|bits| - 1]];
    }
    assert block == head + PageLines(entry);
    var mapped := MappedBlock(entry);
    block := block + mapped;
    block := block + ["ER  - "];
    assert block == ["TY  - " + RisType(entry["ENTRYTYPE"])] + au.value
      + ["PY  - " + GetOr(entry, "year", "")] + PageLines(entry)
      + MappedLines(entry, Mapping) + ["ER  - "];
    return Ok(block);
  }

  /** `exportBibToRIS(entries)`: the lines of every entry joined by
      newlines, with no newline at the end; the first entry that raises
      stops the export. */
  method ExportBibToRIS(entries: seq<Fields>, parse: string -> seq<Author>) returns (r: Result<string>)
    ensures ExportLines(entries, parse).Err? ==> r == Err(ExportLines(entries, parse).error)
    ensures ExportLines(entries, parse).Ok? ==> r == Ok(Join(ExportLines(entries, parse).value, "\n"))
  {
    var f := (x: Fields) => EntryLines(x, parse);
    var lines: seq<string> := [];
    for i := 0 to |entries|
      invariant Collect(entries[..i], f) == Ok(lines)
    {
      var entry := entries[i];
      var block := EntryBlock(entry, parse);
      CollectStep(entries, i, f, lines, block);
      if block.Err? {
        CollectStops(entries, i + 1, f);
        return Err(block.error);
      }
      lines := lines + block.value;
    }
    assert entries[..|entries|] == entries;
    return Ok(Join(lines, "\n"));
  }

  // ---------------------------------------------------------------------
  // readRIS

  /** The BibTeX type `readRIS` gives an entry with the given RIS type: the
      reverse table's entry, else "article". */
  function RisEntryType(typeOfReference: Option<string>): (r: string)
    ensures r in TypeMapping
    ensures typeOfReference.Some? && typeOfReference.value in ReverseTypeMapping ==>
      r == ReverseTypeMapping[typeOfReference.value]
    ensures (typeOfReference.None? || typeOfReference.value !in ReverseTypeMapping) ==> r == "article"
  {
    if typeOfReference.Some? && typeOfReference.value != "" && typeOfReference.value in ReverseTypeMapping
    then ReverseTypeMapping[typeOfReference.value]
    else "article"
  }

  /** Exporting a known BibTeX type and reading it back gives the type
      again, in lower case. */
  lemma TypeRoundTrip(entrytype: string)
    requires Lower(entrytype) in TypeMapping
    ensures RisEntryType(Some(RisType(entrytype))) == Lower(entrytype)
  {
    ReverseIsInverse();
  }

  /** The type a RIS entry gets read back as an unknown BibTeX type is
      "article", which exports as JOUR. */
  lemma UnknownTypeIsArticle(entrytype: string)
    requires Lower(entrytype) !in TypeMapping
    ensures RisEntryType(Some(RisType(entrytype))) == "article"
  {
  }

  /** The entry-type step of `readRIS`, on the entry in place. */
  method SetRisEntryType(entry: Bib)
    modifies entry
    ensures entry.fields == old(entry.fields)["ENTRYTYPE" := RisEntryType(Get(old(entry.fields), "type_of_reference"))]
  {
    var newType := "article";
    if HasValue(entry.fields, "type_of_reference") {
      if entry.fields["type_of_reference"] in ReverseTypeMapping {
        newType := ReverseTypeMapping[entry.fields["type_of_reference"]];
      }
    }
    entry.fields := entry.fields["ENTRYTYPE" := newType];
  }
}
