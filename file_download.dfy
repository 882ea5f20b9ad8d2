/** Preparing the PDF downloads for a list of papers: each paper's file name,
    the URL it is fetched from, and the task records of the papers that have
    one. */
module FileDownload {
  import opened Common
  import opened Text
  import opened Data

  // ---------------------------------------------------------------------
  // generateFilename

  /** Python truthiness of an optional string. */
  predicate Present(o: Option<string>) {
    o.Some? && o.value != ""
  }

  /** The surname the file name starts with: the first parsed author's, when
      it has a non-empty one. */
  function FirstFamily(authors: seq<Author>): (r: Option<string>)
    ensures r.Some? ==> authors != [] && r == authors[0].family && r.value != ""
    ensures r.None? ==> authors == [] || !Present(authors[0].family)
  {
    if authors != [] && Present(authors[0].family) then authors[0].family else None
  }

  /** `authors[0]['family'] + ' '` when there is a surname. */
  function FamilyPart(family: Option<string>): string {
    if family.Some? then family.value + " " else ""
  }

  /** `'(%s)' % paper.year` when the year is truthy. */
  function YearPart(year: Option<string>): string {
    if Present(year) then "(" + year.value + ")" else ""
  }

  /** The file name from its parts: the prefix, " - " only after a
      non-empty prefix, and the title already in title case. */
  function NameOf(family: Option<string>, year: Option<string>, titled: string): string {
    var prefix := FamilyPart(family) + YearPart(year);
    if prefix == "" then titled else prefix + " - " + titled
  }

  /** `paper.norm_title` with the normaliser as a parameter: the file-name
      functions take `normalizeTitle` as `normalize`, so that their proofs do
      not unfold it. A paper without a title raises. */
  function NormTitleBy(paper: Paper, normalize: string -> string): (r: Result<string>)
    ensures r.Err? <==> "title" !in paper.bib
    ensures r.Ok? ==> r.value == normalize(paper.bib["title"])
  {
    if "title" in paper.bib then Ok(normalize(paper.bib["title"])) else Err(AttributeError("lower"))
  }

  /** With `normalizeTitle` itself it is `paper.norm_title`. */
  lemma NormTitleByNormalize(paper: Paper)
    ensures NormTitleBy(paper, NormalizeTitle) == NormTitle(paper)
    ensures NormTitleBy(paper, NormalizeTitle).Ok? ==> IsNormalShape(NormTitleBy(paper, NormalizeTitle).value)
  {
  }

  /** `generateFilename(paper)` as a value; `parse` is `parseBibAuthors`. A
      paper without a title raises, from `norm_title`. */
  function Filename(paper: Paper, parse: Option<string> -> seq<Author>, normalize: string -> string): (r: Result<string>)
    ensures r.Err? <==> "title" !in paper.bib
  {
    match NormTitleBy(paper, normalize)
    case Err(e) => Err(e)
    case Ok(t) => Ok(NameOf(FirstFamily(parse(Authors(paper))), Year(paper), TitleCase(t)))
  }

  /** `generateFilename`: builds the name piece by piece. */
  method GenerateFilename(paper: Paper, parse: Option<string> -> seq<Author>, normalize: string -> string) returns (r: Result<string>)
    ensures r == Filename(paper, parse, normalize)
  {
    var res := "";
    var authors := parse(Authors(paper));
    if authors != [] && Present(authors[0].family) {
      res := res + (authors[0].family.value + " ");
    }
    assert res == FamilyPart(FirstFamily(authors));
    var year := Year(paper);
    if Present(year) {
      res := res + ("(" + year.value + ")");
    }
    ghost var prefix := res;
    assert prefix == FamilyPart(FirstFamily(authors)) + YearPart(year);
    if |res| > 0 {
      res := res + " - ";
    }
    var title := NormTitleBy(paper, normalize);
    if title.Err? {
      return Err(title.error);
    }
    res := res + TitleCase(title.value);
    assert res == NameOf(FirstFamily(authors), year, TitleCase(title.value));
    return Ok(res);
  }

  /** The four shapes of a file name, by whether there is a surname and
      whether there is a year; with neither there is no " - ". */
  lemma NameOfCases(family: Option<string>, year: Option<string>, t: string)
    ensures && (family.Some? && Present(year) ==> NameOf(family, year, t) == family.value + " (" + year.value + ") - " + t)
      && (family.Some? && !Present(year) ==> NameOf(family, year, t) == family.value + "  - " + t)
      && (family.None? && Present(year) ==> NameOf(family, year, t) == "(" + year.value + ") - " + t)
      && (family.None? && !Present(year) ==> NameOf(family, year, t) == t)
  {
    if family.Some? && Present(year) {
      var f, y := family.value, year.value;
      assert (f + " ") + ("(" + y + ")") + " - " + t == f + " (" + y + ") - " + t;
    } else if family.Some? {
      assert family.value + " " + "" + " - " + t == family.value + "  - " + t;
    } else if Present(year) {
      assert "" + ("(" + year.value + ")") + " - " + t == "(" + year.value + ") - " + t;
    }
  }

  /** The name ends with the title. */
  lemma NameOfEndsWithTitle(family: Option<string>, year: Option<string>, t: string)
    ensures var r := NameOf(family, year, t);
      |t| <= |r| && r[|r| - |t|..] == t
  {
    var prefix := FamilyPart(family) + YearPart(year);
    if prefix != "" {
      var r := prefix + " - " + t;
      assert r == (prefix + " - ") + t;
      assert r[|r| - |t|..] == t;
    }
  }

  /** A paper's file name ends with its normalised title in title case. */
  lemma FilenameEndsWithTitle(paper: Paper, parse: Option<string> -> seq<Author>, normalize: string -> string)
    requires "title" in paper.bib
    ensures var r := Filename(paper, parse, normalize).value;
      var t := TitleCase(normalize(paper.bib["title"]));
      |t| <= |r| && r[|r| - |t|..] == t
  {
    NameOfEndsWithTitle(FirstFamily(parse(Authors(paper))), Year(paper), TitleCase(normalize(paper.bib["title"])));
  }

  /** The name starts with the surname when there is one. */
  lemma NameOfStartsWithFamily(family: Option<string>, year: Option<string>, t: string)
    requires family.Some?
    ensures NameOf(family, year, t)[..|family.value|] == family.value
  {
    assert NameOf(family, year, t) == family.value + (" " + YearPart(year) + " - " + t);
  }

  /** Without a surname, it starts with the year in brackets when there is
      one. */
  lemma NameOfStartsWithYear(family: Option<string>, year: Option<string>, t: string)
    requires family.None? && Present(year)
    ensures NameOf(family, year, t)[..|year.value| + 2] == "(" + year.value + ")"
  {
    assert NameOf(family, year, t) == ("(" + year.value + ")") + (" - " + t);
  }

  // ---------------------------------------------------------------------
  // Choosing the URL

  /** One record of `extra_data['urls']` tested by the loop: a dictionary
      whose `type` is 'pdf' gives its `url` and `source`, one of another type
      gives nothing; a missing key or a record that is no dictionary raises. */
  function PdfRecord(rec: Value): (r: Result<Option<(Value, Value)>>)
    ensures r.Err? <==> (|| !rec.VDict? || "type" !in rec.entries
                         || (rec.entries["type"] == VStr("pdf") && ("url" !in rec.entries || "source" !in rec.entries)))
    ensures r.Ok? && r.value.Some? ==>
      rec.entries["type"] == VStr("pdf") && r.value.value == (rec.entries["url"], rec.entries["source"])
  {
    match rec
    case VDict(d) =>
      if "type" !in d then Err(KeyError("type"))
      else if d["type"] != VStr("pdf") then Ok(None)
      else if "url" !in d then Err(KeyError("url"))
      else if "source" !in d then Err(KeyError("source"))
      else Ok(Some((d["url"], d["source"])))
    case _ => Err(TypeError)
  }

  /** What the loop iterates over, `extra_data.get('urls', [])`: a missing
      key gives no records; an empty string or dictionary gives none either;
      a non-empty one yields strings, which cannot be indexed by 'type', and
      any other value is not iterable. */
  function UrlRecords(extraData: map<string, Value>): (r: Result<seq<Value>>)
    ensures "urls" !in extraData ==> r == Ok([])
    ensures r.Ok? && r.value != [] ==> extraData["urls"] == VList(r.value)
  {
    if "urls" !in extraData then Ok([])
    else match extraData["urls"]
      case VList(items) => Ok(items)
      case VStr(s) => if s == "" then Ok([]) else Err(TypeError)
      case VDict(d) => if d == map[] then Ok([]) else Err(TypeError)
      case _ => Err(TypeError)
  }

  /** The loop from record `k` on: the first 'pdf' record, or the first
      error. */
  function FirstPdf(recs: seq<Value>, k: nat): Result<Option<(Value, Value)>>
    decreases |recs| - k
  {
    if k >= |recs| then Ok(None)
    else match PdfRecord(recs[k])
      case Err(e) => Err(e)
      case Ok(Some(u)) => Ok(Some(u))
      case Ok(None) => FirstPdf(recs, k + 1)
  }

  /** The loop stops at the first 'pdf' record when the records before it
      are of other types. */
  lemma {:induction false} FirstPdfAt(recs: seq<Value>, from: nat, k: nat)
    requires from <= k < |recs|
    requires forall j :: from <= j < k ==> PdfRecord(recs[j]) == Ok(None)
    requires PdfRecord(recs[k]).Ok? && PdfRecord(recs[k]).value.Some?
    ensures FirstPdf(recs, from) == PdfRecord(recs[k])
    decreases k - from
  {
    if from < k {
      FirstPdfAt(recs, from + 1, k);
    }
  }

  /** Without a 'pdf' record or an error the loop finds nothing. */
  lemma {:induction false} FirstPdfNone(recs: seq<Value>, from: nat)
    requires forall j :: from <= j < |recs| ==> PdfRecord(recs[j]) == Ok(None)
    ensures FirstPdf(recs, from) == Ok(None)
    decreases |recs| - from
  {
    if from < |recs| {
      FirstPdfNone(recs, from + 1);
    }
  }

  /** The URL and source a paper is downloaded from, None when it has none:
      the first 'pdf' record of `extra_data['urls']`; when its url is not
      truthy or there is none, the bib `eprint`, then the bib `url` if
      `isPdfUrl` accepts it, both with source 'search'. */
  function ChosenUrl(paper: Paper, isPdfUrl: string -> bool): Result<Option<(Value, Value)>> {
    match UrlRecords(paper.extraData)
    case Err(e) => Err(e)
    case Ok(recs) =>
      match FirstPdf(recs, 0)
      case Err(e) => Err(e)
      case Ok(found) =>
        if found.Some? && Truthy(found.value.0) then Ok(found)
        else if HasValue(paper.bib, "eprint") then Ok(Some((VStr(paper.bib["eprint"]), VStr("search"))))
        else if HasValue(paper.bib, "url") && isPdfUrl(paper.bib["url"]) then Ok(Some((VStr(paper.bib["url"]), VStr("search"))))
        else Ok(None)
  }

  /** The URL selection of `bulkDownload`: the loop over the records with its
      `break`, then the fallbacks. */
  method ChooseUrl(paper: Paper, isPdfUrl: string -> bool) returns (r: Result<Option<(Value, Value)>>)
    ensures r == ChosenUrl(paper, isPdfUrl)
  {
    var url := VNone;
    var urlSource := VNone;
    var records := UrlRecords(paper.extraData);
    if records.Err? {
      return Err(records.error);
    }
    var recs := records.value;
    var i := 0;
    while i < |recs|
      invariant i <= |recs|
      invariant FirstPdf(recs, 0) == FirstPdf(recs, i)
      invariant url == VNone && urlSource == VNone
    {
      var rec := PdfRecord(recs[i]);
      if rec.Err? {
        return Err(rec.error);
      }
      if rec.value.Some? {
        url, urlSource := rec.value.value.0, rec.value.value.1;
        break;
      }
      i := i + 1;
    }
    if !Truthy(url) {
      if HasValue(paper.bib, "eprint") {
        url, urlSource := VStr(paper.bib["eprint"]), VStr("search");
      } else if HasValue(paper.bib, "url") && isPdfUrl(paper.bib["url"]) {
        url, urlSource := VStr(paper.bib["url"]), VStr("search");
      }
    }
    if Truthy(url) {
      return Ok(Some((url, urlSource)));
    }
    return Ok(None);
  }

  /** Where a chosen URL comes from: a 'pdf' record whose url is truthy,
      whatever the bib holds; otherwise a non-empty eprint; otherwise the bib
      url, and only one that `isPdfUrl` accepts. */
  lemma ChosenUrlSource(paper: Paper, isPdfUrl: string -> bool)
    requires ChosenUrl(paper, isPdfUrl).Ok? && ChosenUrl(paper, isPdfUrl).value.Some?
    ensures var (url, source) := ChosenUrl(paper, isPdfUrl).value.value;
      var recs := UrlRecords(paper.extraData).value;
      || (exists k :: 0 <= k < |recs| && PdfRecord(recs[k]) == Ok(Some((url, source))) && Truthy(url))
      || (HasValue(paper.bib, "eprint") && url == VStr(paper.bib["eprint"]) && source == VStr("search"))
      || (HasValue(paper.bib, "url") && isPdfUrl(paper.bib["url"]) && url == VStr(paper.bib["url"]) && source == VStr("search"))
  {
    var recs := UrlRecords(paper.extraData).value;
    var found := FirstPdf(recs, 0).value;
    if found.Some? && Truthy(found.value.0) {
      var k := FirstPdfIndex(recs, 0);
      assert PdfRecord(recs[k]) == Ok(found);
    }
  }

  /** The record the loop stopped at. */
  lemma {:induction false} FirstPdfIndex(recs: seq<Value>, from: nat) returns (k: nat)
    requires from <= |recs| && FirstPdf(recs, from).Ok? && FirstPdf(recs, from).value.Some?
    ensures from <= k < |recs| && PdfRecord(recs[k]) == FirstPdf(recs, from)
    decreases |recs| - from
  {
    if PdfRecord(recs[from]).Ok? && PdfRecord(recs[from]).value.None? {
      k := FirstPdfIndex(recs, from + 1);
    } else {
      k := from;
    }
  }

  /** A 'pdf' record with a truthy url wins over the bib, and the bib url is
      never chosen while a non-empty eprint is there. */
  lemma ChosenUrlPrecedence(paper: Paper, isPdfUrl: string -> bool, k: nat)
    requires UrlRecords(paper.extraData).Ok? && k < |UrlRecords(paper.extraData).value|
    requires var recs := UrlRecords(paper.extraData).value;
      && (forall j :: 0 <= j < k ==> PdfRecord(recs[j]) == Ok(None))
      && PdfRecord(recs[k]).Ok? && PdfRecord(recs[k]).value.Some?
    ensures var recs := UrlRecords(paper.extraData).value;
      Truthy(PdfRecord(recs[k]).value.value.0) ==> ChosenUrl(paper, isPdfUrl) == PdfRecord(recs[k])
    ensures var recs := UrlRecords(paper.extraData).value;
      !Truthy(PdfRecord(recs[k]).value.value.0) && HasValue(paper.bib, "eprint") ==>
        ChosenUrl(paper, isPdfUrl) == Ok(Some((VStr(paper.bib["eprint"]), VStr("search"))))
  {
    FirstPdfAt(UrlRecords(paper.extraData).value, 0, k);
  }

  /** A chosen URL is truthy. */
  lemma ChosenUrlTruthy(paper: Paper, isPdfUrl: string -> bool)
    ensures ChosenUrl(paper, isPdfUrl).Ok? && ChosenUrl(paper, isPdfUrl).value.Some? ==> Truthy(ChosenUrl(paper, isPdfUrl).value.value.0)
  {
  }

  /** A bib url that `isPdfUrl` refuses gives no download on its own. */
  lemma RefusedUrlNotChosen(paper: Paper, isPdfUrl: string -> bool)
    requires "urls" !in paper.extraData && !HasValue(paper.bib, "eprint")
    requires "url" in paper.bib && !isPdfUrl(paper.bib["url"])
    ensures ChosenUrl(paper, isPdfUrl) == Ok(None)
  {
    FirstPdfNone([], 0);
  }

  // ---------------------------------------------------------------------
  // Task records

  /** `os.path.join(root, name)`: an absolute name replaces the root; an
      empty root or one that ends in '/' takes no extra separator. */
  function JoinPath(root: string, name: string): (r: string)
    ensures name != [] && name[0] == '/' ==> r == name
    ensures (name == [] || name[0] != '/') && root != [] && root[|root| - 1] != '/' ==> r == root + "/" + name
  {
    if name != [] && name[0] == '/' then name
    else if root == [] || root[|root| - 1] == '/' then root + name
    else root + "/" + name
  }

  /** A download task: the record of `bulkDownload` with the URL added. */
  datatype Task = Task(id: string, doi: Option<string>, filename: string, summary: Option<string>, url: Value, urlSource: Value)

  /** The task for one paper, None when no URL was chosen. `paperId` is the
      identifier the record carries (see Findings). */
  function TaskFor(paper: Paper, root: string, parse: Option<string> -> seq<Author>, normalize: string -> string, isPdfUrl: string -> bool, paperId: Paper -> string): Result<Option<Task>> {
    match Filename(paper, parse, normalize)
    case Err(e) => Err(e)
    case Ok(name) =>
      match ChosenUrl(paper, isPdfUrl)
      case Err(e) => Err(e)
      case Ok(None) => Ok(None)
      case Ok(Some((url, source))) =>
        Ok(Some(Task(paperId(paper), Doi(paper), JoinPath(root, name) + ".pdf", Abstract(paper), url, source)))
  }

  /** The step `bulkDownload` takes for each paper. */
  function TaskMaker(root: string, parse: Option<string> -> seq<Author>, normalize: string -> string, isPdfUrl: string -> bool, paperId: Paper -> string): Paper -> Result<Option<Task>> {
    (p: Paper) => TaskFor(p, root, parse, normalize, isPdfUrl, paperId)
  }

  /** What a task holds: the paper's identifier, DOI and abstract, its file
      name under the root with ".pdf" appended, and a truthy URL. */
  lemma TaskForShape(paper: Paper, root: string, parse: Option<string> -> seq<Author>, normalize: string -> string, isPdfUrl: string -> bool, paperId: Paper -> string)
    requires TaskFor(paper, root, parse, normalize, isPdfUrl, paperId).Ok? && TaskFor(paper, root, parse, normalize, isPdfUrl, paperId).value.Some?
    ensures var t := TaskFor(paper, root, parse, normalize, isPdfUrl, paperId).value.value;
      && t.id == paperId(paper) && t.doi == Doi(paper) && t.summary == Abstract(paper)
      && Filename(paper, parse, normalize).Ok? && t.filename == JoinPath(root, Filename(paper, parse, normalize).value) + ".pdf"
      && Truthy(t.url) && ChosenUrl(paper, isPdfUrl) == Ok(Some((t.url, t.urlSource)))
  {
    var name := Filename(paper, parse, normalize);
    var chosen := ChosenUrl(paper, isPdfUrl);
    assert name.Ok? && chosen.Ok? && chosen.value.Some?;
    ChosenUrlTruthy(paper, isPdfUrl);
  }

  /** The first `n` papers' tasks, in paper order; the first error aborts. */
  function Tasks(papers: seq<Paper>, n: nat, taskFor: Paper -> Result<Option<Task>>): Result<seq<Task>>
    requires n <= |papers|
  {
    if n == 0 then Ok([])
    else match Tasks(papers, n - 1, taskFor)
      case Err(e) => Err(e)
      case Ok(ts) =>
        match taskFor(papers[n - 1])
        case Err(e) => Err(e)
        case Ok(None) => Ok(ts)
        case Ok(Some(t)) => Ok(ts + [t])
  }

  /** The body of the loop over the papers in `bulkDownload`. */
  method MakeTask(paper: Paper, root: string, parse: Option<string> -> seq<Author>, normalize: string -> string, isPdfUrl: string -> bool, paperId: Paper -> string)
    returns (r: Result<Option<Task>>)
    ensures r == TaskFor(paper, root, parse, normalize, isPdfUrl, paperId)
  {
    var name := GenerateFilename(paper, parse, normalize);
    if name.Err? {
      return Err(name.error);
    }
    var record := Task(paperId(paper), Doi(paper), JoinPath(root, name.value) + ".pdf", Abstract(paper), VNone, VNone);
    var chosen := ChooseUrl(paper, isPdfUrl);
    if chosen.Err? {
      return Err(chosen.error);
    }
    if chosen.value.Some? {
      record := record.(url := chosen.value.value.0, urlSource := chosen.value.value.1);
      return Ok(Some(record));
    }
    return Ok(None);
  }

  /** `bulkDownload` up to the task list it writes out, with the identifier
      taken from `paperId`; `root` is the absolute root directory. */
  method BulkDownload(papers: seq<Paper>, root: string, parse: Option<string> -> seq<Author>, normalize: string -> string, isPdfUrl: string -> bool, paperId: Paper -> string)
    returns (r: Result<seq<Task>>)
    ensures r == Tasks(papers, |papers|, TaskMaker(root, parse, normalize, isPdfUrl, paperId))
  {
    r := CollectTasks(papers, TaskMaker(root, parse, normalize, isPdfUrl, paperId), root, parse, normalize, isPdfUrl, paperId);
  }

  /** The loop over the papers of `bulkDownload`: a paper's task is appended
      when it has a URL, and the first exception ends the loop. It is proved
      against `maker`, which agrees with `TaskFor` on every paper; the
      trigger lets the proof see that only for the paper at hand. */
  method CollectTasks(papers: seq<Paper>, ghost maker: Paper -> Result<Option<Task>>, root: string, parse: Option<string> -> seq<Author>,
                      normalize: string -> string, isPdfUrl: string -> bool, paperId: Paper -> string)
    returns (r: Result<seq<Task>>)
    requires forall p {:trigger TaskFor(p, root, parse, normalize, isPdfUrl, paperId)} :: maker(p) == TaskFor(p, root, parse, normalize, isPdfUrl, paperId)
    ensures r == Tasks(papers, |papers|, maker)
  {
    var downloadTasks: seq<Task> := [];
    for i := 0 to |papers|
      invariant Tasks(papers, i, maker) == Ok(downloadTasks)
    {
      var task := MakeTaskBy(papers[i], maker, root, parse, normalize, isPdfUrl, paperId);
      TasksStep(papers, i, maker, downloadTasks);
      if task.Err? {
        TasksStayFailed(papers, i + 1, |papers|, maker);
        return Err(task.error);
      }
      if task.value.Some? {
        downloadTasks := downloadTasks + [task.value.value];
      }
    }
    return Ok(downloadTasks);
  }

  /** `MakeTask`, seen through `maker`. */
  method MakeTaskBy(paper: Paper, ghost maker: Paper -> Result<Option<Task>>, root: string, parse: Option<string> -> seq<Author>,
                    normalize: string -> string, isPdfUrl: string -> bool, paperId: Paper -> string)
    returns (r: Result<Option<Task>>)
    requires forall p {:trigger TaskFor(p, root, parse, normalize, isPdfUrl, paperId)} :: maker(p) == TaskFor(p, root, parse, normalize, isPdfUrl, paperId)
    ensures r == maker(paper)
  {
    r := MakeTask(paper, root, parse, normalize, isPdfUrl, paperId);
  }

  /** One more paper: an error aborts, no task leaves the list as it is,
      and a task is appended. */
  lemma TasksStep(papers: seq<Paper>, i: nat, taskFor: Paper -> Result<Option<Task>>, ts: seq<Task>)
    requires i < |papers| && Tasks(papers, i, taskFor) == Ok(ts)
    ensures taskFor(papers[i]).Err? ==> Tasks(papers, i + 1, taskFor) == Err(taskFor(papers[i]).error)
    ensures taskFor(papers[i]) == Ok(None) ==> Tasks(papers, i + 1, taskFor) == Ok(ts)
    ensures taskFor(papers[i]).Ok? && taskFor(papers[i]).value.Some? ==>
      Tasks(papers, i + 1, taskFor) == Ok(ts + [taskFor(papers[i]).value.value])
  {
  }

  /** The papers that get a task, by index. */
  function TaskIndices(papers: seq<Paper>, n: nat, taskFor: Paper -> Result<Option<Task>>): seq<nat>
    requires n <= |papers|
  {
    if n == 0 then []
    else
      var before := TaskIndices(papers, n - 1, taskFor);
      var t := taskFor(papers[n - 1]);
      if t.Ok? && t.value.Some? then before + [n - 1] else before
  }

  /** The indices rise, and a paper is among them exactly when it has a
      task. */
  lemma {:induction false} TaskIndicesSpec(papers: seq<Paper>, n: nat, taskFor: Paper -> Result<Option<Task>>)
    requires n <= |papers|
    ensures var ix := TaskIndices(papers, n, taskFor);
      && (forall i, j :: 0 <= i < j < |ix| ==> ix[i] < ix[j])
      && (forall i :: 0 <= i < |ix| ==> ix[i] < n)
      && (forall k :: 0 <= k < n ==> (k in ix <==> (taskFor(papers[k]).Ok? && taskFor(papers[k]).value.Some?)))
  {
    if n > 0 {
      TaskIndicesSpec(papers, n - 1, taskFor);
    }
  }

  /** The task list is complete and in paper order: task `i` is the task of
      the paper at `TaskIndices[i]`; and the list is produced exactly when no
      paper raises. */
  lemma {:induction false} TasksInOrder(papers: seq<Paper>, n: nat, taskFor: Paper -> Result<Option<Task>>)
    requires n <= |papers|
    ensures Tasks(papers, n, taskFor).Ok? <==> forall k :: 0 <= k < n ==> taskFor(papers[k]).Ok?
    ensures Tasks(papers, n, taskFor).Ok? ==>
      var ts := Tasks(papers, n, taskFor).value;
      var ix := TaskIndices(papers, n, taskFor);
      && |ts| == |ix|
      && forall i :: 0 <= i < |ix| ==> ix[i] < n && taskFor(papers[ix[i]]) == Ok(Some(ts[i]))
  {
    if n > 0 {
      TasksInOrder(papers, n - 1, taskFor);
      TaskIndicesSpec(papers, n - 1, taskFor);
    }
  }

  /** Once a paper raises, the longer prefixes raise the same error. */
  lemma {:induction false} TasksStayFailed(papers: seq<Paper>, m: nat, n: nat, taskFor: Paper -> Result<Option<Task>>)
    requires m <= n <= |papers| && Tasks(papers, m, taskFor).Err?
    ensures Tasks(papers, n, taskFor) == Tasks(papers, m, taskFor)
    decreases n - m
  {
    if m < n {
      TasksStayFailed(papers, m, n - 1, taskFor);
    }
  }

  /** The first error raised aborts the whole list. */
  lemma {:induction false} TasksFirstError(papers: seq<Paper>, n: nat, taskFor: Paper -> Result<Option<Task>>, k: nat)
    requires k < n <= |papers| && taskFor(papers[k]).Err?
    requires forall j :: 0 <= j < k ==> taskFor(papers[j]).Ok?
    ensures Tasks(papers, n, taskFor) == Err(taskFor(papers[k]).error)
  {
    TasksInOrder(papers, k, taskFor);
    TasksStayFailed(papers, k + 1, n, taskFor);
  }

  /** A list whose first paper raises aborts on that error. */
  lemma TasksFailFirst(papers: seq<Paper>, taskFor: Paper -> Result<Option<Task>>, e: Error)
    requires papers != [] && taskFor(papers[0]) == Err(e)
    ensures Tasks(papers, |papers|, taskFor) == Err(e)
  {
    TasksFirstError(papers, |papers|, taskFor, 0);
  }

  // ---------------------------------------------------------------------
  // The record as written

  /** `paper.id` as the record reads it: Paper has no such attribute. */
  function IdAsWritten(paper: Paper): (r: Result<string>)
    ensures r == Err(AttributeError("id"))
  {
    if "id" in PaperAttributes then Ok("") else Err(AttributeError("id"))
  }

  /** One paper as `bulkDownload` handles it: the record starts with
      `paper.id`, evaluated before anything else. */
  function TaskForAsWritten(paper: Paper, root: string, parse: Option<string> -> seq<Author>, normalize: string -> string, isPdfUrl: string -> bool): (r: Result<Option<Task>>)
    ensures r == Err(AttributeError("id"))
  {
    match IdAsWritten(paper)
    case Err(e) => Err(e)
    case Ok(id) => TaskFor(paper, root, parse, normalize, isPdfUrl, Constant(id))
  }

  function Constant(id: string): Paper -> string {
    (p: Paper) => id
  }

  function TaskMakerAsWritten(root: string, parse: Option<string> -> seq<Author>, normalize: string -> string, isPdfUrl: string -> bool): Paper -> Result<Option<Task>> {
    (p: Paper) => TaskForAsWritten(p, root, parse, normalize, isPdfUrl)
  }

  /** As written, `bulkDownload` raises AttributeError('id') on every
      non-empty list of papers, before any file name or URL is looked at. */
  lemma AsWrittenAlwaysFails(papers: seq<Paper>, root: string, parse: Option<string> -> seq<Author>, normalize: string -> string, isPdfUrl: string -> bool)
    requires papers != []
    ensures Tasks(papers, |papers|, TaskMakerAsWritten(root, parse, normalize, isPdfUrl)) == Err(AttributeError("id"))
  {
    AsWrittenStepFails(papers[0], root, parse, normalize, isPdfUrl);
    TasksFailFirst(papers, TaskMakerAsWritten(root, parse, normalize, isPdfUrl), AttributeError("id"));
  }

  lemma AsWrittenStepFails(paper: Paper, root: string, parse: Option<string> -> seq<Author>, normalize: string -> string, isPdfUrl: string -> bool)
    ensures TaskMakerAsWritten(root, parse, normalize, isPdfUrl)(paper) == Err(AttributeError("id"))
  {
    assert TaskForAsWritten(paper, root, parse, normalize, isPdfUrl) == Err(AttributeError("id"));
  }

  /** With an identifier supplied, a paper with a title and a non-empty
      eprint, and no URL records, gets its task, fetched from the eprint. */
  lemma EprintTask(paper: Paper, root: string, parse: Option<string> -> seq<Author>, normalize: string -> string, isPdfUrl: string -> bool, paperId: Paper -> string)
    requires "title" in paper.bib && HasValue(paper.bib, "eprint") && "urls" !in paper.extraData
    ensures Filename(paper, parse, normalize).Ok?
    ensures TaskFor(paper, root, parse, normalize, isPdfUrl, paperId) ==
      Ok(Some(Task(paperId(paper), Doi(paper), JoinPath(root, Filename(paper, parse, normalize).value) + ".pdf", Abstract(paper), VStr(paper.bib["eprint"]), VStr("search"))))
  {
    FirstPdfNone([], 0);
    assert ChosenUrl(paper, isPdfUrl) == Ok(Some((VStr(paper.bib["eprint"]), VStr("search"))));
  }

  /** A one-paper list holds that paper's task. */
  lemma TasksSingle(paper: Paper, taskFor: Paper -> Result<Option<Task>>, t: Task)
    requires taskFor(paper) == Ok(Some(t))
    ensures Tasks([paper], 1, taskFor) == Ok([t])
  {
    assert Tasks([paper], 0, taskFor) == Ok([]);
    assert [] + [t] == [t];
  }

  /** So the corrected `bulkDownload` downloads such a paper. */
  lemma CorrectedDownloadsEprint(paper: Paper, root: string, parse: Option<string> -> seq<Author>, normalize: string -> string, isPdfUrl: string -> bool, paperId: Paper -> string)
    requires "title" in paper.bib && HasValue(paper.bib, "eprint") && "urls" !in paper.extraData
    ensures Filename(paper, parse, normalize).Ok?
    ensures Tasks([paper], 1, TaskMaker(root, parse, normalize, isPdfUrl, paperId)) ==
      Ok([Task(paperId(paper), Doi(paper), JoinPath(root, Filename(paper, parse, normalize).value) + ".pdf", Abstract(paper), VStr(paper.bib["eprint"]), VStr("search"))])
  {
    EprintTask(paper, root, parse, normalize, isPdfUrl, paperId);
    var t := Task(paperId(paper), Doi(paper), JoinPath(root, Filename(paper, parse, normalize).value) + ".pdf", Abstract(paper), VStr(paper.bib["eprint"]), VStr("search"));
    assert TaskMaker(root, parse, normalize, isPdfUrl, paperId)(paper) == Ok(Some(t));
    TasksSingle(paper, TaskMaker(root, parse, normalize, isPdfUrl, paperId), t);
  }
}
