/** Automatic screening of papers: the text a paper is judged on, keyword
    tests over it, and the ordered chain of exclusion checks that either
    accepts a paper or records the first reason it fails. */
module FilterResults {
  import opened Common
  import opened Text
  import Data

  // ---------------------------------------------------------------------
  // getPaperText and isPatent

  /** The two substitutions applied to an abstract: `[\n\s]+` and then
      `\s+`, each run becoming one space (a newline is whitespace, so both
      patterns match the same runs). */
  function CleanAbstract(abs: string): string {
    CollapseSpaces(CollapseSpaces(abs))
  }

  lemma CleanAbstractSpec(abs: string)
    ensures CleanAbstract(abs) == CollapseSpaces(abs)
    ensures SingleRuns(CleanAbstract(abs), IsSpace, ' ')
  {
    CollapseRunsIdempotent(abs, IsSpace, ' ');
    CollapseRunsShape(abs, IsSpace, ' ');
  }

  /** `getPaperText(paper)`: the title, followed by a space and the cleaned
      abstract when the abstract is truthy. A paper without a title gives
      None, or raises TypeError (`None + str`) when it has an abstract. */
  function PaperText(p: Data.Paper): Result<Option<string>> {
    var title := Data.Title(p);
    if HasValue(p.bib, "abstract") then
      if title.None? then Err(TypeError)
      else Ok(Some(title.value + " " + CleanAbstract(p.bib["abstract"])))
    else Ok(title)
  }

  lemma PaperTextSpec(p: Data.Paper)
    ensures PaperText(p).Err? <==> "title" !in p.bib && HasValue(p.bib, "abstract")
    ensures PaperText(p).Ok? && PaperText(p).value.Some? ==> "title" in p.bib
    ensures !HasValue(p.bib, "abstract") ==> PaperText(p) == Ok(Data.Title(p))
    ensures "title" in p.bib && HasValue(p.bib, "abstract") ==>
      var t := p.bib["title"];
      && PaperText(p).Ok? && PaperText(p).value.Some?
      && var text := PaperText(p).value.value;
      && text[..|t|] == t && text[|t|] == ' '
      && text[|t| + 1..] == CollapseSpaces(p.bib["abstract"])
      && SingleRuns(text[|t| + 1..], IsSpace, ' ')
  {
    if "title" in p.bib && HasValue(p.bib, "abstract") {
      CleanAbstractSpec(p.bib["abstract"]);
      var t := p.bib["title"];
      var text := PaperText(p).value.value;
      assert text == t + " " + CleanAbstract(p.bib["abstract"]);
      assert text[|t| + 1..] == CleanAbstract(p.bib["abstract"]);
    }
  }

  /** `bib.get('url', bib.get('eprint'))`. */
  function PatentUrl(bib: Fields): Option<string> {
    if "url" in bib then Some(bib["url"]) else Get(bib, "eprint")
  }

  /** `isPatent(paper)`: "patent" in the journal (case kept) or in the
      lower-cased url. */
  predicate IsPatent(bib: Fields) {
    || Contains(GetOr(bib, "journal", ""), "patent")
    || (var url := PatentUrl(bib); url.Some? && url.value != "" && Contains(Lower(url.value), "patent"))
  }

  lemma EmptyHasNoPatent()
    ensures !Contains("", "patent")
  {
    assert !OccursAt("", "patent", 0);
  }

  /** A url key, even an empty one, hides the eprint; the eprint is read
      only without a url. */
  lemma IsPatentSpec(bib: Fields)
    ensures "url" in bib ==>
      (IsPatent(bib) <==> Contains(GetOr(bib, "journal", ""), "patent") || Contains(Lower(bib["url"]), "patent"))
    ensures "url" !in bib && "eprint" in bib ==>
      (IsPatent(bib) <==> Contains(GetOr(bib, "journal", ""), "patent") || Contains(Lower(bib["eprint"]), "patent"))
    ensures "url" !in bib && "eprint" !in bib ==>
      (IsPatent(bib) <==> Contains(GetOr(bib, "journal", ""), "patent"))
  {
    EmptyHasNoPatent();
  }

  // ---------------------------------------------------------------------
  // Keyword tests

  /** The lower-cased keyword occurs in the lower-cased text. */
  predicate KeywordIn(kw: string, text: string) {
    Contains(Lower(text), Lower(kw))
  }

  predicate SomeIn(keywords: seq<string>, text: string) {
    exists i :: 0 <= i < |keywords| && KeywordIn(keywords[i], text)
  }

  predicate EveryIn(keywords: seq<string>, text: string) {
    forall i :: 0 <= i < |keywords| ==> KeywordIn(keywords[i], text)
  }

  predicate SomeNotIn(keywords: seq<string>, text: string) {
    exists i :: 0 <= i < |keywords| && !KeywordIn(keywords[i], text)
  }

  predicate NoneIn(keywords: seq<string>, text: string) {
    forall i :: 0 <= i < |keywords| ==> !KeywordIn(keywords[i], text)
  }

  /** How many keywords occur (`inside`) or do not occur (`!inside`). */
  function Count(keywords: seq<string>, text: string, inside: bool): (n: nat)
    ensures n <= |keywords|
  {
    if keywords == [] then 0
    else (Count(keywords[..|keywords| - 1], text, inside)
      + if KeywordIn(keywords[|keywords| - 1], text) == inside then 1 else 0)
  }

  /** The count reaches the number of keywords exactly when every keyword
      is on the counted side. */
  lemma {:induction false} CountFull(keywords: seq<string>, text: string, inside: bool)
    ensures Count(keywords, text, inside) == |keywords| <==>
      forall i :: 0 <= i < |keywords| ==> KeywordIn(keywords[i], text) == inside
  {
    if keywords != [] {
      var p := keywords[..|keywords| - 1];
      CountFull(p, text, inside);
      assert forall i :: 0 <= i < |p| ==> p[i] == keywords[i];
    }
  }

  /** `oneKeywordInText(keywords, text)`. */
  method OneKeywordInText(keywords: seq<string>, text: string) returns (r: bool)
    ensures r <==> SomeIn(keywords, text)
  {
    var textLower := Lower(text);
    for i := 0 to |keywords|
      invariant forall j :: 0 <= j < i ==> !KeywordIn(keywords[j], text)
    {
      var kw := Lower(keywords[i]);
      if Contains(textLower, kw) {
        return true;
      }
    }
    return false;
  }

  /** `allKeywordsInText(keywords, text)`: counts the keywords found. */
  method AllKeywordsInText(keywords: seq<string>, text: string) returns (r: bool)
    ensures r <==> EveryIn(keywords, text)
  {
    var textLower := Lower(text);
    var inText := 0;
    for i := 0 to |keywords|
      invariant inText == Count(keywords[..i], text, true)
    {
      assert keywords[..i + 1][..i] == keywords[..i];
      var kw := Lower(keywords[i]);
      if Contains(textLower, kw) {
        inText := inText + 1;
      }
    }
    assert keywords[..|keywords|] == keywords;
    CountFull(keywords, text, true);
    r := inText == |keywords|;
  }

  /** `oneKeywordNotInText(keywords, text)`. */
  method OneKeywordNotInText(keywords: seq<string>, text: string) returns (r: bool)
    ensures r <==> SomeNotIn(keywords, text)
  {
    var textLower := Lower(text);
    for i := 0 to |keywords|
      invariant forall j :: 0 <= j < i ==> KeywordIn(keywords[j], text)
    {
      var kw := Lower(keywords[i]);
      if !Contains(textLower, kw) {
        return true;
      }
    }
    return false;
  }

  /** `allKeywordsNotInText(keywords, text)`: counts the keywords missing. */
  method AllKeywordsNotInText(keywords: seq<string>, text: string) returns (r: bool)
    ensures r <==> NoneIn(keywords, text)
  {
    var textLower := Lower(text);
    var notInText := 0;
    for i := 0 to |keywords|
      invariant notInText == Count(keywords[..i], text, false)
    {
      assert keywords[..i + 1][..i] == keywords[..i];
      var kw := Lower(keywords[i]);
      if !Contains(textLower, kw) {
        notInText := notInText + 1;
      }
    }
    assert keywords[..|keywords|] == keywords;
    CountFull(keywords, text, false);
    r := notInText == |keywords|;
  }

  /** The positive and negative tests are each other's negations, and the
      empty keyword list is found nowhere and everywhere. */
  lemma KeywordDuality(keywords: seq<string>, text: string)
    ensures SomeNotIn(keywords, text) <==> !EveryIn(keywords, text)
    ensures NoneIn(keywords, text) <==> !SomeIn(keywords, text)
    ensures keywords == [] ==> !SomeIn(keywords, text) && EveryIn(keywords, text)
  {
  }

  // ---------------------------------------------------------------------
  // The exclusion chain

  const ReviewTitleWords := ["review", "overview"]
  const ReviewTextWords := ["this review", "this chapter"]
  const ImageWords := ["images", "visual", "chest x-ray", "segmentation"]
  const RadiologyWords := ["radiolo", "imaging report", " CT", ",CT", ":CT", "MRI"]
  const NlpWords := [
    "text", "langu", "lingu", "nlp", "synta", "embedding", "information extraction",
    "text mining", "words", "deep learning", "deep neural", "machine learning",
    "artificial intelligence", "document classification"]

  /** The reasons, in the order the checks run. */
  const ExclusionReasons := [
    "language", "is_patent", "year", "is_review", "uses_images", "no_pdf", "not_radiology", "not_nlp"]

  const MinYear := 2015

  /** Texts this short are taken as English without detection. */
  const ShortText := 62

  /** `int(paper.bib.get('year', 0))`: a missing year reads as 0, a year
      that is not an integer literal raises ValueError. */
  function YearNumber(bib: Fields): Result<int> {
    if "year" !in bib then Ok(0)
    else match ParseInt(bib["year"])
      case Some(n) => Ok(n)
      case None => Err(ValueError("invalid literal for int()"))
  }

  /** The paper's stored `extra_data['language']`, VNone when absent. */
  function StoredLanguage(p: Data.Paper): Value {
    if "language" in p.extraData then p.extraData["language"] else VNone
  }

  /** The language a paper is judged in: the stored one when truthy
      (raising when it is not a string), otherwise "en" for a short or
      all-uppercase text and the detector's answer for any other; always
      lower-cased. The detector may raise (langdetect raises
      LangDetectException on a text with no features, such as one of digits
      only), and its exception propagates. */
  function Language(stored: Value, text: string, detect: string -> Result<string>): Result<string> {
    if !Truthy(stored) then
      var found := if |text| < ShortText || IsUpperString(text) then Ok("en") else detect(text);
      match found
      case Err(e) => Err(e)
      case Ok(language) => Ok(Lower(language))
    else if stored.VStr? then Ok(Lower(stored.s))
    else Err(AttributeError("lower"))
  }

  /** Without a stored language, a short or all-uppercase text is English
      whatever the detector would say; a stored language wins over the
      detector; otherwise the detector's answer is lower-cased, and its
      exception is the only one besides a stored non-string. */
  lemma LanguageSpec(stored: Value, text: string, detect: string -> Result<string>, other: string -> Result<string>)
    ensures !Truthy(stored) && (|text| < ShortText || IsUpperString(text)) ==> Language(stored, text, detect) == Ok("en")
    ensures Truthy(stored) ==> Language(stored, text, detect) == Language(stored, text, other)
    ensures !Truthy(stored) && |text| >= ShortText && !IsUpperString(text) && detect(text).Ok? ==>
      Language(stored, text, detect) == Ok(Lower(detect(text).value))
    ensures !Truthy(stored) && |text| >= ShortText && !IsUpperString(text) && detect(text).Err? ==>
      Language(stored, text, detect) == Err(detect(text).error)
    ensures Language(stored, text, detect).Err? <==>
      (Truthy(stored) && !stored.VStr?)
      || (!Truthy(stored) && |text| >= ShortText && !IsUpperString(text) && detect(text).Err?)
    ensures Language(stored, text, detect).Ok? ==> NoUpper(Language(stored, text, detect).value)
  {
    assert Lower("en") == "en";
    if Language(stored, text, detect).Ok? {
      if !Truthy(stored) {
        LowerHasNoUpper(if |text| < ShortText || IsUpperString(text) then "en" else detect(text).value);
      } else {
        LowerHasNoUpper(stored.s);
      }
    }
  }

  /** The `if/elif` chain of `filterPapers`: the first failing check's
      reason, None when all pass. The year is read only once the language
      and patent checks pass. */
  function Exclusion(bib: Fields, title: string, language: string, lowerText: string, hasPdf: bool): Result<Option<string>> {
    if !StartsWith(language, "en") then Ok(Some("language"))
    else if IsPatent(bib) then Ok(Some("is_patent"))
    else match YearNumber(bib)
      case Err(e) => Err(e)
      case Ok(year) =>
        Ok(if year < MinYear then Some("year")
           else if SomeIn(ReviewTitleWords, Lower(title)) || SomeIn(ReviewTextWords, lowerText) then Some("is_review")
           else if SomeIn(ImageWords, lowerText) then Some("uses_images")
           else if !hasPdf then Some("no_pdf")
           else if NoneIn(RadiologyWords, lowerText) then Some("not_radiology")
           else if NoneIn(NlpWords, lowerText) then Some("not_nlp")
           else None)
  }

  /** Whether each check fails, in chain order, once the year is known. */
  function Failures(bib: Fields, title: string, language: string, lowerText: string, hasPdf: bool, year: int): (r: seq<bool>)
    ensures |r| == |ExclusionReasons|
  {
    [ !StartsWith(language, "en"),
      IsPatent(bib),
      year < MinYear,
      SomeIn(ReviewTitleWords, Lower(title)) || SomeIn(ReviewTextWords, lowerText),
      SomeIn(ImageWords, lowerText),
      !hasPdf,
      NoneIn(RadiologyWords, lowerText),
      NoneIn(NlpWords, lowerText) ]
  }

  /** The name of the first failing check from position `i` on. */
  function FirstFailing(fails: seq<bool>, names: seq<string>, i: nat): (r: Option<string>)
    requires |fails| == |names| && i <= |fails|
    decreases |fails| - i
  {
    if i == |fails| then None
    else if fails[i] then Some(names[i])
    else FirstFailing(fails, names, i + 1)
  }

  lemma {:induction false} FirstFailingSpec(fails: seq<bool>, names: seq<string>, i: nat)
    requires |fails| == |names| && i <= |fails|
    ensures FirstFailing(fails, names, i).None? <==> forall j :: i <= j < |fails| ==> !fails[j]
    ensures FirstFailing(fails, names, i).Some? ==>
      exists j :: i <= j < |fails| && fails[j] && names[j] == FirstFailing(fails, names, i).value
        && forall m :: i <= m < j ==> !fails[m]
    decreases |fails| - i
  {
    if i < |fails| && !fails[i] {
      FirstFailingSpec(fails, names, i + 1);
    }
  }

  lemma FirstFailingOfEight(b0: bool, b1: bool, b2: bool, b3: bool, b4: bool, b5: bool, b6: bool, b7: bool)
    ensures FirstFailing([b0, b1, b2, b3, b4, b5, b6, b7], ExclusionReasons, 0) ==
      if b0 then Some("language") else if b1 then Some("is_patent")
      else if b2 then Some("year") else if b3 then Some("is_review")
      else if b4 then Some("uses_images") else if b5 then Some("no_pdf")
      else if b6 then Some("not_radiology") else if b7 then Some("not_nlp")
      else None
  {
    var fs, r := [b0, b1, b2, b3, b4, b5, b6, b7], ExclusionReasons;
    assert FirstFailing(fs, r, 7) == if b7 then Some("not_nlp") else None;
    assert FirstFailing(fs, r, 6) == if b6 then Some("not_radiology") else FirstFailing(fs, r, 7);
    assert FirstFailing(fs, r, 5) == if b5 then Some("no_pdf") else FirstFailing(fs, r, 6);
    assert FirstFailing(fs, r, 4) == if b4 then Some("uses_images") else FirstFailing(fs, r, 5);
    assert FirstFailing(fs, r, 3) == if b3 then Some("is_review") else FirstFailing(fs, r, 4);
    assert FirstFailing(fs, r, 2) == if b2 then Some("year") else FirstFailing(fs, r, 3);
    assert FirstFailing(fs, r, 1) == if b1 then Some("is_patent") else FirstFailing(fs, r, 2);
  }

  /** The chain gives the first failing check's reason. */
  lemma ExclusionIsFirstFailing(bib: Fields, title: string, language: string, lowerText: string, hasPdf: bool)
    requires YearNumber(bib).Ok?
    ensures Exclusion(bib, title, language, lowerText, hasPdf)
      == Ok(FirstFailing(Failures(bib, title, language, lowerText, hasPdf, YearNumber(bib).value), ExclusionReasons, 0))
  {
    var year := YearNumber(bib).value;
    FirstFailingOfEight(
      !StartsWith(language, "en"), IsPatent(bib), year < MinYear,
      SomeIn(ReviewTitleWords, Lower(title)) || SomeIn(ReviewTextWords, lowerText),
      SomeIn(ImageWords, lowerText), !hasPdf,
      NoneIn(RadiologyWords, lowerText), NoneIn(NlpWords, lowerText));
  }

  /** The chain raises only when the year is reached and is not a number. */
  lemma ExclusionRaises(bib: Fields, title: string, language: string, lowerText: string, hasPdf: bool)
    ensures Exclusion(bib, title, language, lowerText, hasPdf).Err? <==>
      StartsWith(language, "en") && !IsPatent(bib) && YearNumber(bib).Err?
  {
  }

  /** A missing year reads as 0 and excludes the paper for its year. */
  lemma MissingYearExcluded(bib: Fields, title: string, language: string, lowerText: string, hasPdf: bool)
    requires StartsWith(language, "en") && !IsPatent(bib) && "year" !in bib
    ensures Exclusion(bib, title, language, lowerText, hasPdf) == Ok(Some("year"))
  {
  }

  /** Every reason given is one of the eight. */
  lemma ExclusionReasonKnown(bib: Fields, title: string, language: string, lowerText: string, hasPdf: bool)
    requires Exclusion(bib, title, language, lowerText, hasPdf).Ok?
    requires Exclusion(bib, title, language, lowerText, hasPdf).value.Some?
    ensures Exclusion(bib, title, language, lowerText, hasPdf).value.value in ExclusionReasons
  {
  }

  // ---------------------------------------------------------------------
  // filterPapers

  /** One row of the report. */
  datatype Record = Record(
    title: Option<string>,
    year: Option<string>,
    authors: Option<string>,
    venue: Option<string>,
    abstractText: Option<string>,
    excluded: bool,
    excludeReason: Option<string>,
    language: string)

  /** The record of one paper and whether it is accepted. Errors come in
      the order the code meets them: the venue, the text, the language
      (`len(None)` or `None.lower()` for a paper with no text), then the
      year. */
  function Screen(p: Data.Paper, detect: string -> Result<string>, hasPdf: Data.Paper -> bool): Result<(Record, bool)> {
    match Data.Venue(p)
    case Err(e) => Err(e)
    case Ok(venue) =>
      match PaperText(p)
      case Err(e) => Err(e)
      case Ok(text) =>
        var stored := StoredLanguage(p);
        if text.None? then Err(if !Truthy(stored) then TypeError else AttributeError("lower"))
        else
          match Language(stored, text.value, detect)
          case Err(e) => Err(e)
          case Ok(language) =>
            match Exclusion(p.bib, OrEmpty(Data.Title(p)), language, Lower(text.value), hasPdf(p))
            case Err(e) => Err(e)
            case Ok(reason) =>
              Ok((Record(Data.Title(p), Data.Year(p), Data.Authors(p), venue, Data.Abstract(p),
                         reason.Some?, reason, language),
                  reason.None?))
  }

  /** A paper with no stored language whose text is long and not all upper
      case is passed to the detector, and when the detector raises, so does
      the screening of that paper, whatever comes after. */
  lemma DetectorErrorEndsScreen(p: Data.Paper, detect: string -> Result<string>, hasPdf: Data.Paper -> bool)
    requires Data.Venue(p).Ok? && PaperText(p).Ok? && PaperText(p).value.Some?
    requires !Truthy(StoredLanguage(p))
    requires var t := PaperText(p).value.value; |t| >= ShortText && !IsUpperString(t) && detect(t).Err?
    ensures Screen(p, detect, hasPdf) == Err(detect(PaperText(p).value.value).error)
  {
    LanguageSpec(StoredLanguage(p), PaperText(p).value.value, detect, detect);
  }

  /** An accepted paper's record keeps `excluded` False and no reason; an
      excluded one has `excluded` True and one of the eight reasons. */
  lemma ScreenSpec(p: Data.Paper, detect: string -> Result<string>, hasPdf: Data.Paper -> bool)
    ensures Screen(p, detect, hasPdf).Ok? ==>
      var (record, accepted) := Screen(p, detect, hasPdf).value;
      && (accepted <==> !record.excluded)
      && (record.excluded <==> record.excludeReason.Some?)
      && (record.excluded ==> record.excludeReason.value in ExclusionReasons)
      && record.title == Data.Title(p)
  {
    PaperTextSpec(p);
    if Screen(p, detect, hasPdf).Ok? {
      var text := PaperText(p).value.value;
      var language := Language(StoredLanguage(p), text, detect).value;
      var reason := Exclusion(p.bib, OrEmpty(Data.Title(p)), language, Lower(text), hasPdf(p));
      if reason.value.Some? {
        ExclusionReasonKnown(p.bib, OrEmpty(Data.Title(p)), language, Lower(text), hasPdf(p));
      }
    }
  }

  /** The body of the `filterPapers` loop for one paper. */
  method ScreenPaper(p: Data.Paper, detect: string -> Result<string>, hasPdf: Data.Paper -> bool) returns (r: Result<(Record, bool)>)
    ensures r == Screen(p, detect, hasPdf)
  {
    var venue := Data.Venue(p);
    if venue.Err? {
      return Err(venue.error);
    }
    var text := PaperText(p);
    if text.Err? {
      return Err(text.error);
    }
    var stored := StoredLanguage(p);
    if text.value.None? {
      return Err(if !Truthy(stored) then TypeError else AttributeError("lower"));
    }
    var language := Language(stored, text.value.value, detect);
    if language.Err? {
      return Err(language.error);
    }
    var lang := language.value;
    var lowerText := Lower(text.value.value);
    var title := OrEmpty(Data.Title(p));
    var reason: Option<string> := None;
    if !StartsWith(lang, "en") {
      reason := Some("language");
    } else if IsPatent(p.bib) {
      reason := Some("is_patent");
    } else {
      var year := YearNumber(p.bib);
      if year.Err? {
        return Err(year.error);
      }
      var reviewTitle := OneKeywordInText(ReviewTitleWords, Lower(title));
      var reviewText := OneKeywordInText(ReviewTextWords, lowerText);
      var images := OneKeywordInText(ImageWords, lowerText);
      var radiology := AllKeywordsNotInText(RadiologyWords, lowerText);
      var nlp := AllKeywordsNotInText(NlpWords, lowerText);
      if year.value < MinYear {
        reason := Some("year");
      } else if reviewTitle || reviewText {
        reason := Some("is_review");
      } else if images {
        reason := Some("uses_images");
      } else if !hasPdf(p) {
        reason := Some("no_pdf");
      } else if radiology {
        reason := Some("not_radiology");
      } else if nlp {
        reason := Some("not_nlp");
      }
    }
    var record := Record(Data.Title(p), Data.Year(p), Data.Authors(p), venue.value, Data.Abstract(p),
                         reason.Some?, reason, lang);
    r := Ok((record, reason.None?));
  }

  /** The papers whose record is not excluded, in order. */
  function Kept(papers: seq<Data.Paper>, report: seq<Record>): seq<Data.Paper>
    requires |papers| == |report|
  {
    if papers == [] then []
    else (Kept(papers[..|papers| - 1], report[..|report| - 1])
      + if report[|report| - 1].excluded then [] else [papers[|papers| - 1]])
  }

  /** What `filterPapers(papers)` returns, for a per-paper screening
      `screen`: the included papers and one record per paper; the first
      paper that raises ends the loop. */
  function Filtered(papers: seq<Data.Paper>, screen: Data.Paper -> Result<(Record, bool)>)
    : Result<(seq<Data.Paper>, seq<Record>)>
  {
    if papers == [] then Ok(([], []))
    else
      match Filtered(papers[..|papers| - 1], screen)
      case Err(e) => Err(e)
      case Ok((included, report)) =>
        match screen(papers[|papers| - 1])
        case Err(e) => Err(e)
        case Ok((record, accepted)) =>
          Ok((included + (if accepted then [papers[|papers| - 1]] else []), report + [record]))
  }

  lemma {:induction false} FilteredStops(papers: seq<Data.Paper>, n: nat, screen: Data.Paper -> Result<(Record, bool)>)
    requires n <= |papers| && Filtered(papers[..n], screen).Err?
    ensures Filtered(papers, screen) == Filtered(papers[..n], screen)
    decreases |papers| - n
  {
    if n < |papers| {
      assert papers[..n + 1][..n] == papers[..n];
      FilteredStops(papers, n + 1, screen);
    } else {
      assert papers[..n] == papers;
    }
  }

  /** One more paper: its screening error, or its record and, when
      accepted, the paper appended. */
  lemma FilteredStep(papers: seq<Data.Paper>, i: nat, screen: Data.Paper -> Result<(Record, bool)>,
                     s: Result<(Record, bool)>, included: seq<Data.Paper>, report: seq<Record>)
    requires i < |papers| && Filtered(papers[..i], screen).Ok?
    requires Filtered(papers[..i], screen).value.0 == included
    requires Filtered(papers[..i], screen).value.1 == report
    requires s == screen(papers[i])
    ensures s.Err? ==> Filtered(papers[..i + 1], screen) == Err(s.error)
    ensures s.Ok? ==> Filtered(papers[..i + 1], screen).Ok?
    ensures s.Ok? && s.value.1 ==> Filtered(papers[..i + 1], screen).value.0 == included + [papers[i]]
    ensures s.Ok? && !s.value.1 ==> Filtered(papers[..i + 1], screen).value.0 == included
    ensures s.Ok? ==> Filtered(papers[..i + 1], screen).value.1 == report + [s.value.0]
  {
    assert papers[..i + 1][..i] == papers[..i];
  }

  /** `filterPapers(papers)`, with the language detector and `has_pdf` as
      parameters; the report is the list of records before it becomes a
      DataFrame. */
  method FilterPapers(papers: seq<Data.Paper>, detect: string -> Result<string>, hasPdf: Data.Paper -> bool)
    returns (r: Result<(seq<Data.Paper>, seq<Record>)>)
    ensures r == Filtered(papers, p => Screen(p, detect, hasPdf))
  {
    ghost var screen := p => Screen(p, detect, hasPdf);
    var included: seq<Data.Paper> := [];
    var report: seq<Record> := [];
    for i := 0 to |papers|
      invariant Filtered(papers[..i], screen).Ok?
      invariant Filtered(papers[..i], screen).value.0 == included
      invariant Filtered(papers[..i], screen).value.1 == report
    {
      var screened := ScreenPaper(papers[i], detect, hasPdf);
      FilteredStep(papers, i, screen, screened, included, report);
      if screened.Err? {
        FilteredStops(papers, i + 1, screen);
        return Err(screened.error);
      }
      var (record, accepted) := screened.value;
      if accepted {
        included := included + [papers[i]];
      }
      report := report + [record];
    }
    assert papers[..|papers|] == papers;
    r := Ok((included, report));
  }

  /** A screening that accepts exactly the papers whose record is not
      excluded. */
  ghost predicate Consistent(screen: Data.Paper -> Result<(Record, bool)>) {
    forall q :: screen(q).Ok? ==> (screen(q).value.1 <==> !screen(q).value.0.excluded)
  }

  lemma ScreenConsistent(detect: string -> Result<string>, hasPdf: Data.Paper -> bool)
    ensures Consistent(p => Screen(p, detect, hasPdf))
  {
    forall q | Screen(q, detect, hasPdf).Ok?
      ensures Screen(q, detect, hasPdf).value.1 <==> !Screen(q, detect, hasPdf).value.0.excluded
    {
      ScreenSpec(q, detect, hasPdf);
    }
  }

  /** The loop raises exactly when some paper's screening does. */
  lemma {:induction false} FilteredRaises(papers: seq<Data.Paper>, screen: Data.Paper -> Result<(Record, bool)>)
    ensures Filtered(papers, screen).Ok? <==> forall i :: 0 <= i < |papers| ==> screen(papers[i]).Ok?
  {
    if papers != [] {
      var n := |papers| - 1;
      var p := papers[..n];
      FilteredRaises(p, screen);
      if Filtered(papers, screen).Ok? {
        forall i | 0 <= i < |papers| ensures screen(papers[i]).Ok? {
          if i < n {
            assert papers[i] == p[i];
          }
        }
      } else if Filtered(p, screen).Ok? {
        assert screen(papers[n]).Err?;
      } else {
        var i :| 0 <= i < n && screen(p[i]).Err?;
        assert papers[i] == p[i];
      }
    }
  }

  /** The report has one record per paper, in order. */
  lemma {:induction false} FilteredReport(papers: seq<Data.Paper>, screen: Data.Paper -> Result<(Record, bool)>)
    requires Filtered(papers, screen).Ok?
    ensures var report := Filtered(papers, screen).value.1;
      && |report| == |papers|
      && forall i :: 0 <= i < |papers| ==> screen(papers[i]).Ok? && report[i] == screen(papers[i]).value.0
  {
    if papers != [] {
      FilteredReport(papers[..|papers| - 1], screen);
    }
  }

  /** The included papers are those whose record is not excluded, in
      order. */
  lemma {:induction false} FilteredIncluded(papers: seq<Data.Paper>, screen: Data.Paper -> Result<(Record, bool)>)
    requires Filtered(papers, screen).Ok?
    requires Consistent(screen)
    ensures |Filtered(papers, screen).value.1| == |papers|
    ensures Filtered(papers, screen).value.0 == Kept(papers, Filtered(papers, screen).value.1)
  {
    if papers != [] {
      var n := |papers| - 1;
      var p := papers[..n];
      FilteredIncluded(p, screen);
      var report := Filtered(papers, screen).value.1;
      assert report[..n] == Filtered(p, screen).value.1;
    }
  }

  /** `Kept` lists papers in order, each with an accepted record, as many
      as there are such records. */
  lemma {:induction false} KeptSpec(papers: seq<Data.Paper>, report: seq<Record>)
    requires |papers| == |report|
    ensures |Kept(papers, report)| == |set i | 0 <= i < |report| && !report[i].excluded|
    ensures forall q :: q in Kept(papers, report) ==> exists i :: 0 <= i < |papers| && papers[i] == q && !report[i].excluded
  {
    if papers != [] {
      var n := |papers| - 1;
      KeptSpec(papers[..n], report[..n]);
      var before := set i | 0 <= i < n && !report[..n][i].excluded;
      var all := set i | 0 <= i < |report| && !report[i].excluded;
      if report[n].excluded {
        assert all == before;
      } else {
        assert all == before + {n};
      }
    }
  }

  /** The first paper whose screening raises decides the error. */
  lemma FilteredFirstError(papers: seq<Data.Paper>, screen: Data.Paper -> Result<(Record, bool)>, k: nat)
    requires k < |papers| && screen(papers[k]).Err?
    requires forall j :: 0 <= j < k ==> screen(papers[j]).Ok?
    ensures Filtered(papers, screen) == Err(screen(papers[k]).error)
  {
    var before := papers[..k];
    forall i | 0 <= i < k ensures screen(before[i]).Ok? {
      assert before[i] == papers[i];
    }
    FilteredRaises(before, screen);
    var (included, report) := Filtered(before, screen).value;
    FilteredStep(papers, k, screen, screen(papers[k]), included, report);
    FilteredStops(papers, k + 1, screen);
  }

  // ---------------------------------------------------------------------
  // `paper.has_pdf` as written

  /** `paper.has_pdf` as the chain reads it: Paper has no such attribute. */
  function HasPdfAsWritten(p: Data.Paper): (r: Result<bool>)
    ensures r == Err(AttributeError("has_pdf"))
  {
    if "has_pdf" in Data.PaperAttributes then Ok(true) else Err(AttributeError("has_pdf"))
  }

  /** Every paper taken as having no PDF. */
  function NoPdf(): Data.Paper -> bool {
    (q: Data.Paper) => false
  }

  /** The chain reaches the `has_pdf` test: taken as having no PDF, the
      paper is screened without error and excluded for exactly that reason. */
  predicate ReachesPdfTest(p: Data.Paper, detect: string -> Result<string>) {
    var s := Screen(p, detect, NoPdf());
    s.Ok? && s.value.0.excludeReason == Some("no_pdf")
  }

  /** One paper as `filterPapers` screens it: the attribute is read once the
      five checks before it pass. */
  function ScreenAsWritten(p: Data.Paper, detect: string -> Result<string>): Result<(Record, bool)> {
    var s := Screen(p, detect, NoPdf());
    if s.Ok? && s.value.0.excludeReason == Some("no_pdf") then
      match HasPdfAsWritten(p)
      case Err(e) => Err(e)
      case Ok(b) => Screen(p, detect, (q: Data.Paper) => b)
    else s
  }

  /** Short of the test, the chain does not look at `has_pdf`. */
  lemma ExclusionShortOfPdfTest(bib: Fields, title: string, language: string, lowerText: string, hasPdf: bool)
    requires Exclusion(bib, title, language, lowerText, false) != Ok(Some("no_pdf"))
    ensures Exclusion(bib, title, language, lowerText, hasPdf) == Exclusion(bib, title, language, lowerText, false)
  {
  }

  /** At the test, a paper with a PDF goes on to the later checks. */
  lemma ExclusionAtPdfTest(bib: Fields, title: string, language: string, lowerText: string)
    requires Exclusion(bib, title, language, lowerText, false) == Ok(Some("no_pdf"))
    ensures Exclusion(bib, title, language, lowerText, true).Ok?
    ensures Exclusion(bib, title, language, lowerText, true).value != Some("no_pdf")
  {
    var radiology, nlp := NoneIn(RadiologyWords, lowerText), NoneIn(NlpWords, lowerText);
    assert Exclusion(bib, title, language, lowerText, true)
      == Ok(if radiology then Some("not_radiology") else if nlp then Some("not_nlp") else None);
  }

  /** A paper that does not reach the test is screened alike whatever
      `has_pdf` says. */
  lemma ScreenShortOfPdfTest(p: Data.Paper, detect: string -> Result<string>, hasPdf: Data.Paper -> bool)
    requires !ReachesPdfTest(p, detect)
    ensures Screen(p, detect, hasPdf) == Screen(p, detect, NoPdf())
  {
    var text := PaperText(p);
    if Data.Venue(p).Ok? && text.Ok? && text.value.Some? {
      var language := Language(StoredLanguage(p), text.value.value, detect);
      if language.Ok? {
        var args := (p.bib, OrEmpty(Data.Title(p)), language.value, Lower(text.value.value));
        assert NoPdf()(p) == false;
        ExclusionShortOfPdfTest(args.0, args.1, args.2, args.3, hasPdf(p));
      }
    }
  }

  /** With `has_pdf` supplied, a paper that reaches the test is excluded
      for it exactly when it has no PDF. */
  lemma PdfTestDecides(p: Data.Paper, detect: string -> Result<string>, hasPdf: Data.Paper -> bool)
    requires ReachesPdfTest(p, detect)
    ensures Screen(p, detect, hasPdf).Ok?
    ensures !hasPdf(p) <==> Screen(p, detect, hasPdf).value.0.excludeReason == Some("no_pdf")
  {
    var text := PaperText(p).value.value;
    var language := Language(StoredLanguage(p), text, detect).value;
    assert NoPdf()(p) == false;
    ExclusionAtPdfTest(p.bib, OrEmpty(Data.Title(p)), language, Lower(text));
  }

  /** As written, screening raises AttributeError('has_pdf') exactly for the
      papers that reach the test, and agrees with any supplied `has_pdf` on
      the others. */
  lemma ScreenAsWrittenSpec(p: Data.Paper, detect: string -> Result<string>, hasPdf: Data.Paper -> bool)
    ensures ReachesPdfTest(p, detect) ==> ScreenAsWritten(p, detect) == Err(AttributeError("has_pdf"))
    ensures !ReachesPdfTest(p, detect) ==> ScreenAsWritten(p, detect) == Screen(p, detect, hasPdf)
  {
    if !ReachesPdfTest(p, detect) {
      ScreenShortOfPdfTest(p, detect, hasPdf);
    }
  }

  lemma AsWrittenScreenAtTest(p: Data.Paper, detect: string -> Result<string>)
    requires ReachesPdfTest(p, detect)
    ensures ScreenAsWritten(p, detect) == Err(AttributeError("has_pdf"))
  {
  }

  /** As written, `filterPapers` raises AttributeError('has_pdf') at the
      first paper that passes the language, patent, year, review and image
      checks, when no paper before it raises (by `ScreenAsWrittenSpec`,
      those papers are screened as with any supplied `has_pdf`). */
  lemma AsWrittenPdfRaises(papers: seq<Data.Paper>, detect: string -> Result<string>, k: nat)
    requires k < |papers| && ReachesPdfTest(papers[k], detect)
    requires forall j :: 0 <= j < k ==> ScreenAsWritten(papers[j], detect).Ok?
    ensures Filtered(papers, p => ScreenAsWritten(p, detect)) == Err(AttributeError("has_pdf"))
  {
    AsWrittenScreenAtTest(papers[k], detect);
    FilteredFirstError(papers, p => ScreenAsWritten(p, detect), k);
  }

  /** A paper that reaches the no_pdf check: an English misc entry from 2020
      titled "x", with no abstract, no patent source and no review or image
      words. */
  function PdfTestPaper(): Data.Paper {
    Data.Paper(map["ENTRYTYPE" := "misc", "title" := "x", "year" := "2020"], map[], None, None, None)
  }

  /** No keyword longer than the text can occur in it. */
  lemma LongKeywordsAbsent(keywords: seq<string>, text: string)
    requires forall i :: 0 <= i < |keywords| ==> |keywords[i]| > |text|
    ensures !SomeIn(keywords, text)
  {
  }

  lemma YearOfPdfTestPaper()
    ensures YearNumber(PdfTestPaper().bib) == Ok(2020)
  {
    StripOfYear();
    DigitsOfYear();
    assert ParseInt("2020") == Some(2020);
  }

  lemma StripOfYear()
    ensures Strip("2020") == "2020"
  {
    var y := "2020";
    assert y[0] == '2' && y[|y| - 1] == '0';
    StripOfStripped(y);
  }

  lemma DigitsOfYear()
    ensures DigitGroup("2020") && DigitsValue("2020") == 2020
  {
    DigitsSnoc("", '2');
    assert "" + ['2'] == "2";
    DigitsSnoc("2", '0');
    assert "2" + ['0'] == "20";
    DigitsSnoc("20", '2');
    assert "20" + ['2'] == "202";
    DigitsSnoc("202", '0');
    assert "202" + ['0'] == "2020";
  }

  lemma DigitsSnoc(s: string, c: char)
    requires (forall i :: 0 <= i < |s| ==> IsDigit(s[i])) && IsDigit(c)
    ensures DigitsValue(s + [c]) == 10 * DigitsValue(s) + DigitValue(c)
  {
    assert (s + [c])[..|s|] == s;
  }

  lemma PdfTestPaperReaches(detect: string -> Result<string>)
    ensures ReachesPdfTest(PdfTestPaper(), detect)
  {
    var p := PdfTestPaper();
    assert Data.Venue(p).Ok?;
    assert PaperText(p) == Ok(Some("x"));
    assert Lower("en") == "en";
    assert Language(StoredLanguage(p), "x", detect) == Ok("en");
    assert Lower("x") == "x";
    ExclusionOfPdfTestPaper();
  }

  lemma ExclusionOfPdfTestPaper()
    ensures Exclusion(PdfTestPaper().bib, "x", "en", "x", false) == Ok(Some("no_pdf"))
  {
    YearOfPdfTestPaper();
    PdfTestPaperNotPatent();
    PdfTestPaperNoWords();
  }

  lemma PdfTestPaperNotPatent()
    ensures !IsPatent(PdfTestPaper().bib)
  {
    var bib := PdfTestPaper().bib;
    assert "journal" !in bib && "url" !in bib && "eprint" !in bib;
    IsPatentSpec(bib);
    EmptyHasNoPatent();
  }

  lemma PdfTestPaperNoWords()
    ensures Lower("x") == "x"
    ensures !SomeIn(ReviewTitleWords, "x") && !SomeIn(ReviewTextWords, "x") && !SomeIn(ImageWords, "x")
  {
    LongKeywordsAbsent(ReviewTitleWords, "x");
    LongKeywordsAbsent(ReviewTextWords, "x");
    LongKeywordsAbsent(ImageWords, "x");
  }

  /** As written, `filterPapers` raises AttributeError('has_pdf') on any list
      that starts with this paper. */
  lemma AsWrittenExampleRaises(detect: string -> Result<string>, rest: seq<Data.Paper>)
    ensures Filtered([PdfTestPaper()] + rest, p => ScreenAsWritten(p, detect)) == Err(AttributeError("has_pdf"))
  {
    PdfTestPaperReaches(detect);
    AsWrittenPdfRaises([PdfTestPaper()] + rest, detect, 0);
  }

  /** With `has_pdf` supplied, the same paper is screened without error and
      excluded for no_pdf exactly when it has no PDF. */
  lemma CorrectedExampleScreens(detect: string -> Result<string>, hasPdf: Data.Paper -> bool)
    ensures Screen(PdfTestPaper(), detect, hasPdf).Ok?
    ensures Screen(PdfTestPaper(), detect, hasPdf).value.0.excludeReason == Some("no_pdf") <==> !hasPdf(PdfTestPaper())
  {
    PdfTestPaperReaches(detect);
    PdfTestDecides(PdfTestPaper(), detect, hasPdf);
  }
}
