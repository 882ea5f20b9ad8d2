/** db/data.py, part one: the match key of a title (`normalizeTitle`) and the
    `Paper` record with its derived properties. The store (`PaperStore`)
    is in store.dfy, because it depends on search results, which depend on
    `Paper`. */
module Data {
  import opened Common
  import opened Text

  /** Titles are cut to this many characters. */
  const MaxTitleLength := 200

  /** The character class of the punctuation step: every one of these becomes
      a space (the backslash is part of the class too). */
  predicate IsTitlePunct(c: char) {
    c in {'"', '#', '$', '%', '&', '\\', '\'', '(', ')', '*', '+', ',', '-', '.', '/', ':', ';',
          '<', '=', '>', '?', '\U{bf}', '!', '\U{a1}', '@', '[', ']', '^', '_', '`', '{', '|', '}', '~'}
  }

  /** Step 2: a hyphen that ends a line-broken word, with the one or two
      spaces after it, is deleted, joining the two halves. */
  function DropHyphenBreaks(s: string): string {
    Replace(Replace(s, "-  ", ""), "- ", "")
  }

  /** Step 3: punctuation to spaces. */
  function PunctToSpace(s: string): (r: string)
    ensures |r| == |s|
    ensures forall i :: 0 <= i < |s| ==> r[i] == if IsTitlePunct(s[i]) then ' ' else s[i]
  {
    if s == [] then [] else [if IsTitlePunct(s[0]) then ' ' else s[0]] + PunctToSpace(s[1..])
  }

  /** Steps 1 to 5: lower-case, join broken words, punctuation to spaces,
      collapse whitespace, strip. */
  function StrippedTitle(title: string): string {
    Strip(CollapseSpaces(PunctToSpace(DropHyphenBreaks(Lower(title)))))
  }

  /** `title[:n]`. */
  function Truncate(s: string, n: nat): (r: string)
    ensures r <= s && |r| == if |s| <= n then |s| else n
  {
    if |s| <= n then s else s[..n]
  }

  /** The shape every normalised title has. */
  predicate IsNormalShape(s: string) {
    && NoUpper(s)
    && (forall i :: 0 <= i < |s| ==> !IsTitlePunct(s[i]))
    && SingleRuns(s, IsSpace, ' ')
    && (s == [] || !IsSpace(s[0]))
  }

  /** `normalizeTitle(title)`: the key under which titles are matched. It is
      lower case, holds no character of the punctuation class, has no run of
      two whitespace characters (and no whitespace but the plain space), does
      not start with whitespace and is at most 200 characters long. */
  function NormalizeTitle(title: string): (r: string)
    ensures |r| <= MaxTitleLength
    ensures IsNormalShape(r)
    ensures r <= StrippedTitle(title)
    ensures |r| == if |StrippedTitle(title)| <= MaxTitleLength then |StrippedTitle(title)| else MaxTitleLength
  {
    StrippedShape(title);
    var s := StrippedTitle(title);
    SingleRunsSlice(s, 0, |Truncate(s, MaxTitleLength)|);
    Truncate(s, MaxTitleLength)
  }

  lemma SingleRunsSlice(s: string, a: nat, b: nat)
    requires a <= b <= |s| && SingleRuns(s, IsSpace, ' ')
    ensures SingleRuns(s[a..b], IsSpace, ' ')
  {
    var t := s[a..b];
    forall i | 0 <= i < |t| - 1 ensures !(IsSpace(t[i]) && IsSpace(t[i + 1])) {
      assert t[i] == s[a + i] && t[i + 1] == s[a + i + 1];
    }
  }

  /** No upper-case letter and no punctuation of the class. */
  predicate Clean(s: string) {
    NoUpper(s) && forall i :: 0 <= i < |s| ==> !IsTitlePunct(s[i])
  }

  lemma ReplaceKeepsNoUpper(s: string, pat: string)
    requires pat != [] && NoUpper(s)
    ensures NoUpper(Replace(s, pat, ""))
  {
    var r := Replace(s, pat, "");
    forall i | 0 <= i < |r| ensures !IsUpper(r[i]) {
      ReplaceChars(s, pat, "", r[i]);
    }
  }

  lemma CollapseKeepsClean(s: string)
    requires Clean(s)
    ensures Clean(CollapseSpaces(s)) && SingleRuns(CollapseSpaces(s), IsSpace, ' ')
  {
    var r := CollapseSpaces(s);
    forall i | 0 <= i < |r| ensures !IsUpper(r[i]) && !IsTitlePunct(r[i]) {
      CollapseRunsChars(s, IsSpace, ' ', r[i]);
    }
    CollapseRunsShape(s, IsSpace, ' ');
  }

  lemma SliceKeepsClean(s: string, a: nat, b: nat)
    requires a <= b <= |s| && Clean(s) && SingleRuns(s, IsSpace, ' ')
    ensures Clean(s[a..b]) && SingleRuns(s[a..b], IsSpace, ' ')
  {
    SingleRunsSlice(s, a, b);
  }

  /** The text before truncation has the normal shape and no trailing
      whitespace. */
  lemma StrippedShape(title: string)
    ensures IsNormalShape(StrippedTitle(title))
    ensures var s := StrippedTitle(title); s == [] || !IsSpace(s[|s| - 1])
  {
    var t1 := Lower(title);
    LowerHasNoUpper(title);
    var t2a := Replace(t1, "-  ", "");
    ReplaceKeepsNoUpper(t1, "-  ");
    var t2 := Replace(t2a, "- ", "");
    ReplaceKeepsNoUpper(t2a, "- ");
    assert t2 == DropHyphenBreaks(t1);
    var t3 := PunctToSpace(t2);
    PunctToSpaceClean(t2);
    StripKeepsShape(t3);
  }

  lemma PunctToSpaceClean(s: string)
    requires NoUpper(s)
    ensures Clean(PunctToSpace(s))
  {
  }

  lemma StripKeepsShape(t3: string)
    requires Clean(t3)
    ensures IsNormalShape(Strip(CollapseSpaces(t3)))
    ensures var s := Strip(CollapseSpaces(t3)); s == [] || !IsSpace(s[|s| - 1])
  {
    CollapseKeepsClean(t3);
    StripShape(CollapseSpaces(t3));
  }

  lemma StripShape(t4: string)
    requires Clean(t4) && SingleRuns(t4, IsSpace, ' ')
    ensures IsNormalShape(Strip(t4))
    ensures var s := Strip(t4); s == [] || !IsSpace(s[|s| - 1])
  {
    var k := |t4| - |StripLeft(t4)|;
    var t5 := Strip(t4);
    StripIsSlice(t4);
    SliceKeepsClean(t4, k, k + |t5|);
    ShapeFromParts(t5);
  }

  lemma StripIsSlice(s: string)
    ensures var k := |s| - |StripLeft(s)|;
      k + |Strip(s)| <= |s| && Strip(s) == s[k..k + |Strip(s)|]
  {
  }

  lemma ShapeFromParts(s: string)
    requires Clean(s) && SingleRuns(s, IsSpace, ' ')
    requires s == [] || !IsSpace(s[0])
    ensures IsNormalShape(s)
  {
  }

  /** Text that already has the normal shape and no trailing whitespace is
      its own stripped form, whatever its length. */
  lemma StrippedOfNormal(s: string)
    requires IsNormalShape(s)
    requires s == [] || !IsSpace(s[|s| - 1])
    ensures StrippedTitle(s) == s
  {
    LowerOfNoUpper(s);
    assert '-' !in s by {
      assert IsTitlePunct('-');
    }
    ReplaceAbsent(s, "-  ", "");
    ReplaceAbsent(s, "- ", "");
    assert PunctToSpace(s) == s;
    CollapseRunsOfSingle(s, IsSpace, ' ');
    StripOfStripped(s);
  }

  /** A title that already has the normal shape, is at most 200 characters
      long and does not end in whitespace is its own normal form. */
  lemma NormalizeTitleOfNormal(s: string)
    requires IsNormalShape(s) && |s| <= MaxTitleLength
    requires s == [] || !IsSpace(s[|s| - 1])
    ensures NormalizeTitle(s) == s
  {
    StrippedOfNormal(s);
  }

  /** `normalizeTitle` is idempotent whenever the stripped text fits in 200
      characters, so that truncation cannot leave a trailing space. */
  lemma NormalizeTitleIdempotent(title: string)
    requires |StrippedTitle(title)| <= MaxTitleLength
    ensures NormalizeTitle(NormalizeTitle(title)) == NormalizeTitle(title)
  {
    StrippedShape(title);
    var s := StrippedTitle(title);
    assert NormalizeTitle(title) == s;
    NormalizeTitleOfNormal(s);
  }

  /** Truncation after stripping: a 201-character title whose 200th
      character is a space keeps that space at the end, and normalising the
      result again removes it, so the function is not idempotent there. */
  lemma LongTitleKeepsTrailingSpace(a: string, b: char)
    requires |a| == MaxTitleLength - 1 && IsNormalShape(a) && !IsSpace(a[|a| - 1])
    requires !IsUpper(b) && !IsTitlePunct(b) && !IsSpace(b)
    ensures NormalizeTitle(a + [' ', b]) == a + " "
    ensures NormalizeTitle(NormalizeTitle(a + [' ', b])) == a
  {
    TruncatedLongTitle(a, b);
    StrippedOfTrailingSpace(a);
    assert Truncate(a, MaxTitleLength) == a;
  }

  lemma TruncatedLongTitle(a: string, b: char)
    requires |a| == MaxTitleLength - 1 && IsNormalShape(a) && !IsSpace(a[|a| - 1])
    requires !IsUpper(b) && !IsTitlePunct(b) && !IsSpace(b)
    ensures NormalizeTitle(a + [' ', b]) == a + " "
  {
    var t := a + [' ', b];
    AppendSpaceWord(a, b);
    StrippedOfNormal(t);
    PrefixBeforeWord(NormalizeTitle(t), a, b);
  }

  lemma PrefixBeforeWord(r: string, a: string, b: char)
    requires r <= a + [' ', b] && |r| == |a| + 1
    ensures r == a + " "
  {
    assert r == (a + [' ', b])[..|a| + 1];
  }

  lemma StrippedOfTrailingSpace(a: string)
    requires a != [] && IsNormalShape(a) && !IsSpace(a[|a| - 1])
    ensures StrippedTitle(a + " ") == a
  {
    var n := a + " ";
    AppendSpaceNormal(a);
    LowerOfNoUpper(n);
    assert '-' !in n by { assert IsTitlePunct('-'); }
    ReplaceAbsent(n, "-  ", "");
    ReplaceAbsent(n, "- ", "");
    assert PunctToSpace(n) == n;
    CollapseRunsOfSingle(n, IsSpace, ' ');
    assert StripLeft(n) == n;
    assert n[..|n| - 1] == a;
    assert StripRight(n) == StripRight(a);
    StripOfStripped(a);
  }

  lemma AppendSpaceWord(a: string, b: char)
    requires a != [] && IsNormalShape(a) && !IsSpace(a[|a| - 1])
    requires !IsUpper(b) && !IsTitlePunct(b) && !IsSpace(b)
    ensures IsNormalShape(a + [' ', b])
  {
    var t := a + [' ', b];
    assert forall i :: 0 <= i < |a| ==> t[i] == a[i];
  }

  lemma AppendSpaceNormal(a: string)
    requires a != [] && IsNormalShape(a) && !IsSpace(a[|a| - 1])
    ensures IsNormalShape(a + " ")
  {
    var t := a + " ";
    assert forall i :: 0 <= i < |a| ==> t[i] == a[i];
  }

  /** The hyphen-and-space step runs before punctuation becomes space: a
      hyphen followed by one space joins the two halves of a broken word, */
  lemma HyphenSpaceJoins(x: string, y: string)
    requires '-' !in x && '-' !in y && (y == [] || y[0] != ' ')
    ensures NormalizeTitle(x + "- " + y) == NormalizeTitle(x + y)
  {
    LowerAround(x, "- ", y);
    LowerNoHyphen(x);
    LowerNoHyphen(y);
    DropJoin(Lower(x), Lower(y));
    LowerConcat(x, y);
    NoHyphenKept(Lower(x) + Lower(y));
    assert StrippedTitle(x + "- " + y) == StrippedTitle(x + y);
  }

  /** while a hyphen not followed by a space becomes a space. */
  lemma HyphenSeparates(x: string, y: string)
    requires '-' !in x && '-' !in y && (y == [] || y[0] != ' ')
    ensures NormalizeTitle(x + "-" + y) == NormalizeTitle(x + " " + y)
  {
    LowerAround(x, "-", y);
    LowerAround(x, " ", y);
    LowerNoHyphen(x);
    LowerNoHyphen(y);
    var h := Lower(x) + "-" + Lower(y);
    var g := Lower(x) + " " + Lower(y);
    DropBare(Lower(x), Lower(y));
    NoHyphenKept(g);
    PunctHyphen(Lower(x), Lower(y));
    assert StrippedTitle(x + "-" + y) == StrippedTitle(x + " " + y);
  }

  lemma LowerAround(x: string, m: string, y: string)
    requires NoUpper(m)
    ensures Lower(x + m + y) == Lower(x) + m + Lower(y)
  {
    LowerConcat(x + m, y);
    LowerConcat(x, m);
    LowerOfNoUpper(m);
  }

  lemma NoHyphenKept(s: string)
    requires '-' !in s
    ensures DropHyphenBreaks(s) == s
  {
    ReplaceAbsent(s, "-  ", "");
    ReplaceAbsent(s, "- ", "");
  }

  lemma DropJoin(a: string, b: string)
    requires '-' !in a && '-' !in b && (b == [] || b[0] != ' ')
    ensures DropHyphenBreaks(a + "- " + b) == a + b
  {
    var t := "- " + b;
    assert a + "- " + b == a + t;
    ReplaceSkip(a, t, "-  ", "");
    JoinFirstPass(b);
    ReplaceSkip(a, t, "- ", "");
    JoinSecondPass(b);
  }

  lemma JoinFirstPass(b: string)
    requires '-' !in b && (b == [] || b[0] != ' ')
    ensures Replace("- " + b, "-  ", "") == "- " + b
  {
    var t := "- " + b;
    DashSpaceNotPrefix(b);
    ReplaceKeepsHead(t, "-  ", "");
    assert t[1..] == " " + b;
    ReplaceSkip(" ", b, "-  ", "");
    ReplaceAbsent(b, "-  ", "");
  }

  lemma DashSpaceNotPrefix(b: string)
    requires b == [] || b[0] != ' '
    ensures !("-  " <= "- " + b)
  {
    if b != [] {
      assert ("- " + b)[2] == b[0];
    }
  }

  lemma JoinSecondPass(b: string)
    requires '-' !in b
    ensures Replace("- " + b, "- ", "") == b
  {
    var t := "- " + b;
    assert t[..2] == "- ";
    assert "- " <= t;
    assert t[2..] == b;
    ReplaceAbsent(b, "- ", "");
  }

  lemma DropBare(a: string, b: string)
    requires '-' !in a && '-' !in b && (b == [] || b[0] != ' ')
    ensures DropHyphenBreaks(a + "-" + b) == a + "-" + b
  {
    var t := "-" + b;
    assert a + "-" + b == a + t;
    BarePass(b, "-  ");
    BarePass(b, "- ");
    ReplaceSkip(a, t, "-  ", "");
    ReplaceSkip(a, t, "- ", "");
  }

  lemma BarePass(b: string, pat: string)
    requires '-' !in b && (b == [] || b[0] != ' ')
    requires |pat| >= 2 && pat[0] == '-' && pat[1] == ' '
    ensures Replace("-" + b, pat, "") == "-" + b
  {
    var t := "-" + b;
    assert |t| >= 2 ==> t[1] == b[0];
    assert !(pat <= t);
    assert t[1..] == b;
    ReplaceAbsent(b, pat, "");
  }

  lemma PunctHyphen(a: string, b: string)
    ensures PunctToSpace(a + "-" + b) == PunctToSpace(a + " " + b)
  {
    assert IsTitlePunct('-');
    var h, g := a + "-" + b, a + " " + b;
    assert forall i :: 0 <= i < |h| && i != |a| ==> h[i] == g[i];
  }

  lemma LowerNoHyphen(s: string)
    requires '-' !in s
    ensures '-' !in Lower(s)
  {
  }

  // ---------------------------------------------------------------------
  // Paper

  /** A paper: its BibTeX fields, its auxiliary data and the three
      identifiers held outside the fields (the DOI is a field). */
  datatype Paper = Paper(
    bib: Fields,
    extraData: map<string, Value>,
    pmid: Option<string>,
    scholarid: Option<string>,
    arxivid: Option<string>)

  /** The names a `Paper` object answers to: its five attributes, its
      properties and `asDict`. */
  const PaperAttributes: set<string> := {
    "bib", "extra_data", "pmid", "scholarid", "arxivid", "doi", "title", "norm_title",
    "abstract", "year", "authors", "entrytype", "venue", "asDict"}

  /** `Paper(bib, extra_data)`: the constructor's defaults leave the three
      identifiers as None. */
  function NewPaper(bib: Fields, extraData: map<string, Value>): (p: Paper)
    ensures p.bib == bib && p.extraData == extraData
    ensures p.pmid.None? && p.scholarid.None? && p.arxivid.None?
  {
    Paper(bib, extraData, None, None, None)
  }

  function Doi(p: Paper): Option<string> { Get(p.bib, "doi") }

  function Title(p: Paper): Option<string> { Get(p.bib, "title") }

  function Abstract(p: Paper): Option<string> { Get(p.bib, "abstract") }

  function Year(p: Paper): Option<string> { Get(p.bib, "year") }

  function Authors(p: Paper): Option<string> { Get(p.bib, "author") }

  /** `paper.norm_title`; a paper without a title raises, as `None.lower()`
      does. */
  function NormTitle(p: Paper): (r: Result<string>)
    ensures r.Err? <==> "title" !in p.bib
    ensures r.Ok? ==> IsNormalShape(r.value) && |r.value| <= MaxTitleLength
  {
    if "title" in p.bib then Ok(NormalizeTitle(p.bib["title"])) else Err(AttributeError("lower"))
  }

  /** `paper.entrytype`: the lower-cased entry type; raises without one. */
  function Entrytype(p: Paper): (r: Result<string>)
    ensures r.Err? <==> "ENTRYTYPE" !in p.bib
    ensures r.Ok? ==> NoUpper(r.value) && |r.value| == |p.bib["ENTRYTYPE"]|
  {
    if "ENTRYTYPE" in p.bib then Ok(Lower(p.bib["ENTRYTYPE"])) else Err(AttributeError("lower"))
  }

  /** Every entry type that has a venue (possibly empty). */
  const VenueTypes: set<string> := {
    "article", "book", "booklet", "manual", "proceedings", "conference", "inproceedings",
    "incollection", "mastersthesis", "phdthesis", "techreport", "misc", "unpublished"}

  /** `paper.venue`: the venue field that belongs to the entry type, the
      empty string for kinds that have none, None for unknown kinds. */
  function Venue(p: Paper): (r: Result<Option<string>>)
    ensures r.Err? <==> "ENTRYTYPE" !in p.bib
    ensures r.Ok? ==> (r.value.None? <==> Lower(p.bib["ENTRYTYPE"]) !in VenueTypes)
    ensures r.Ok? && r.value.Some? ==> r.value.value == "" || r.value.value in p.bib.Values
  {
    match Entrytype(p)
    case Err(e) => Err(e)
    case Ok(t) =>
      Ok(if t == "article" then Some(GetOr(p.bib, "journal", ""))
         else if t in ["book", "booklet", "manual", "proceedings"] then Some("")
         else if t in ["conference", "inproceedings", "incollection"] then Some(GetOr(p.bib, "booktitle", ""))
         else if t in ["mastersthesis", "phdthesis"] then Some(GetOr(p.bib, "school", ""))
         else if t in ["techreport"] then Some(GetOr(p.bib, "institution", ""))
         else if t in ["misc", "unpublished"] then Some("")
         else None)
  }

  /** The venue depends on the entry type only through its lower-cased
      spelling. */
  lemma VenueIgnoresCase(p: Paper, q: Paper)
    requires p.bib.Keys == q.bib.Keys && "ENTRYTYPE" in p.bib
    requires forall k :: k in p.bib && k != "ENTRYTYPE" ==> p.bib[k] == q.bib[k]
    requires Lower(p.bib["ENTRYTYPE"]) == Lower(q.bib["ENTRYTYPE"])
    ensures Venue(p) == Venue(q)
  {
  }

  /** The venue field each group of entry types reads. */
  lemma VenueByType(p: Paper)
    requires "ENTRYTYPE" in p.bib
    ensures var t := Lower(p.bib["ENTRYTYPE"]);
      && (t == "article" ==> Venue(p) == Ok(Some(GetOr(p.bib, "journal", ""))))
      && (t in {"conference", "inproceedings", "incollection"} ==> Venue(p) == Ok(Some(GetOr(p.bib, "booktitle", ""))))
      && (t in {"mastersthesis", "phdthesis"} ==> Venue(p) == Ok(Some(GetOr(p.bib, "school", ""))))
      && (t == "techreport" ==> Venue(p) == Ok(Some(GetOr(p.bib, "institution", ""))))
      && (t in {"book", "booklet", "manual", "proceedings", "misc", "unpublished"} ==> Venue(p) == Ok(Some("")))
  {
  }
}
