/** Metadata harvesting: merging the fields a lookup returned into an
    entry, cleaning titles, ranking candidate records by their distance to
    a paper's title, and the DOI a Semantic Scholar lookup needs. */
module MetadataHarvest {
  import opened Common
  import opened Text
  import Data

  /** The fields a merge may fill in, in the order the merge visits them. */
  const BibFields: seq<string> := [
    "address", "annote", "author", "booktitle", "chapter", "crossref", "edition", "editor",
    "howpublished", "institution", "issue", "journal", "key",
    "month", "note", "number", "organization",
    "pages", "publisher", "school", "series", "title", "type", "volume", "year"]

  // ---------------------------------------------------------------------
  // mergeBibs

  /** One step of the merge: the field is copied when it is empty or absent
      in `f` and non-empty in `n`. */
  function MergeField(f: Fields, n: Fields, field: string): Fields {
    if !HasValue(f, field) && HasValue(n, field) then f[field := n[field]] else f
  }

  /** The merge over the given fields, visited in order. */
  function MergedOver(f: Fields, n: Fields, fields: seq<string>): Fields
    decreases |fields|
  {
    if fields == [] then f
    else MergeField(MergedOver(f, n, fields[..|fields| - 1]), n, fields[|fields| - 1])
  }

  /** What `mergeBibs(bib, new_bib)` leaves in `bib`. */
  function Merged(f: Fields, n: Fields): Fields {
    MergedOver(f, n, BibFields)
  }

  /** Whether a merge over `fields` takes key `k` from `n`. */
  predicate Takes(f: Fields, n: Fields, fields: seq<string>, k: string) {
    k in fields && !HasValue(f, k) && HasValue(n, k)
  }

  /** Each key ends up with `n`'s value when it is a merged field that `f`
      lacks and `n` has, and with `f`'s value (or absence) otherwise. */
  lemma {:induction false} MergedOverSpec(f: Fields, n: Fields, fields: seq<string>, k: string)
    ensures Get(MergedOver(f, n, fields), k) == if Takes(f, n, fields, k) then Some(n[k]) else Get(f, k)
    decreases |fields|
  {
    if fields != [] {
      var init := fields[..|fields| - 1];
      var last := fields[|fields| - 1];
      assert fields == init + [last];
      MergedOverSpec(f, n, init, k);
      assert k in fields <==> k in init || k == last;
    }
  }

  /** `mergeBibs` fills a field exactly when it is one of the merge fields,
      empty or absent in the entry and non-empty in the new fields; every
      other key keeps its value or its absence. */
  lemma MergedSpec(f: Fields, n: Fields, k: string)
    ensures Get(Merged(f, n), k) == if Takes(f, n, BibFields, k) then Some(n[k]) else Get(f, k)
  {
    MergedOverSpec(f, n, BibFields, k);
  }

  /** A non-empty value is never overwritten. */
  lemma MergeKeepsValues(f: Fields, n: Fields, k: string)
    requires HasValue(f, k)
    ensures k in Merged(f, n) && Merged(f, n)[k] == f[k]
  {
    MergedSpec(f, n, k);
  }

  /** A key outside the merge fields, such as the abstract or the DOI, is
      never taken from the new fields. */
  lemma MergeIgnoresOtherKeys(f: Fields, n: Fields, k: string)
    requires k !in BibFields
    ensures Get(Merged(f, n), k) == Get(f, k)
  {
    MergedSpec(f, n, k);
  }

  lemma AbstractAndDoiNotMerged(f: Fields, n: Fields)
    ensures Get(Merged(f, n), "abstract") == Get(f, "abstract")
    ensures Get(Merged(f, n), "doi") == Get(f, "doi")
  {
    MergeIgnoresOtherKeys(f, n, "abstract");
    MergeIgnoresOtherKeys(f, n, "doi");
  }

  /** Two dictionaries that agree on every lookup are equal. */
  lemma FieldsEqual(a: Fields, b: Fields)
    requires forall k :: Get(a, k) == Get(b, k)
    ensures a == b
  {
    assert a.Keys == b.Keys by {
      forall k ensures k in a <==> k in b {
        assert Get(a, k) == Get(b, k);
      }
    }
    forall k | k in a ensures a[k] == b[k] {
      assert Get(a, k) == Get(b, k);
    }
  }

  /** Merging the same fields twice is merging them once. */
  lemma MergeIdempotent(f: Fields, n: Fields)
    ensures Merged(Merged(f, n), n) == Merged(f, n)
  {
    var g := Merged(f, n);
    forall k ensures Get(Merged(g, n), k) == Get(g, k) {
      MergedSpec(f, n, k);
      MergedSpec(g, n, k);
    }
    FieldsEqual(Merged(g, n), g);
  }

  /** `mergeBibs(bib, new_bib)`: fills `bib` in place and returns the same
      object. */
  method MergeBibs(bib: Bib, newBib: Fields) returns (r: Bib)
    modifies bib
    ensures r == bib
    ensures bib.fields == Merged(old(bib.fields), newBib)
  {
    for i := 0 to |BibFields|
      invariant bib.fields == MergedOver(old(bib.fields), newBib, BibFields[..i])
    {
      var field := BibFields[i];
      assert BibFields[..i + 1][..i] == BibFields[..i];
      if !HasValue(bib.fields, field) && HasValue(newBib, field) {
        bib.fields := bib.fields[field := newBib[field]];
      }
    }
    assert BibFields[..|BibFields|] == BibFields;
    return bib;
  }

  // ---------------------------------------------------------------------
  // basicTitleCleaning

  /** `basicTitleCleaning(title)`: every run of white space becomes one
      space. */
  function BasicTitleCleaning(title: string): string {
    CollapseSpaces(title)
  }

  /** The cleaned title has only single spaces between its other characters,
      which it keeps in order, and is no longer than the title. */
  lemma BasicTitleCleaningShape(title: string)
    ensures |BasicTitleCleaning(title)| <= |title|
    ensures SingleRuns(BasicTitleCleaning(title), IsSpace, ' ')
    ensures Outside(BasicTitleCleaning(title), IsSpace) == Outside(title, IsSpace)
  {
    CollapseRunsShape(title, IsSpace, ' ');
    CollapseRunsKeepsOutside(title, IsSpace, ' ');
  }

  lemma BasicTitleCleaningIdempotent(title: string)
    ensures BasicTitleCleaning(BasicTitleCleaning(title)) == BasicTitleCleaning(title)
  {
    CollapseRunsIdempotent(title, IsSpace, ' ');
  }

  /** The cleaning does not trim: a leading or trailing run survives as one
      space. */
  lemma BasicTitleCleaningKeepsEnds()
    ensures BasicTitleCleaning(" a ") == " a "
  {
    var s := " a ";
    assert SingleRuns(s, IsSpace, ' ') by {
      assert !IsSpace(s[1]);
    }
    CollapseRunsOfSingle(s, IsSpace, ' ');
  }

  // ---------------------------------------------------------------------
  // rerankBySimilarity

  /** A candidate record of a title search; only its list of titles is
      read, and the ranking rewrites it in place. None when the record has
      no "title" key. */
  class Item {
    var title: Option<seq<string>>

    constructor (title: Option<seq<string>>)
      ensures this.title == title
    {
      this.title := title;
    }
  }

  /** What reading `res['title'][0]` raises, if anything. */
  function TitleError(title: Option<seq<string>>): (e: Option<Error>)
    ensures e.None? <==> title.Some? && title.value != []
  {
    if title.None? then Some(KeyError("title"))
    else if title.value == [] then Some(IndexError)
    else None
  }

  /** A record with the distance of its title to the paper's. */
  type Scored = (real, Item)

  /** `sorted(scores, key=lambda x: x[0])`, by insertion: an element goes
      before the first element that is not closer, so equal distances keep
      their order. */
  function InsertByDistance(x: Scored, s: seq<Scored>): seq<Scored> {
    if s == [] || x.0 <= s[0].0 then [x] + s else [s[0]] + InsertByDistance(x, s[1..])
  }

  function SortByDistance(s: seq<Scored>): seq<Scored> {
    if s == [] then [] else InsertByDistance(s[0], SortByDistance(s[1..]))
  }

  predicate SortedByDistance(s: seq<Scored>) {
    forall i, j :: 0 <= i < j < |s| ==> s[i].0 <= s[j].0
  }

  /** The elements at distance `d`, in order. */
  function AtDistance(s: seq<Scored>, d: real): seq<Scored> {
    if s == [] then [] else (if s[0].0 == d then [s[0]] else []) + AtDistance(s[1..], d)
  }

  lemma {:induction false} InsertByDistancePermutes(x: Scored, s: seq<Scored>)
    ensures multiset(InsertByDistance(x, s)) == multiset(s) + multiset{x}
    decreases |s|
  {
    if s != [] && x.0 > s[0].0 {
      InsertByDistancePermutes(x, s[1..]);
      assert s == [s[0]] + s[1..];
    }
  }

  /** Every element of `s` and `x` at least `lo` away: so is every element of
      the insertion. */
  lemma {:induction false} InsertByDistanceAbove(x: Scored, s: seq<Scored>, lo: real)
    requires lo <= x.0 && forall k :: 0 <= k < |s| ==> lo <= s[k].0
    ensures forall k :: 0 <= k < |InsertByDistance(x, s)| ==> lo <= InsertByDistance(x, s)[k].0
    decreases |s|
  {
    if s != [] && x.0 > s[0].0 {
      InsertByDistanceAbove(x, s[1..], lo);
      assert InsertByDistance(x, s) == [s[0]] + InsertByDistance(x, s[1..]);
    }
  }

  lemma ConsSortedByDistance(y: Scored, t: seq<Scored>)
    requires SortedByDistance(t) && forall k :: 0 <= k < |t| ==> y.0 <= t[k].0
    ensures SortedByDistance([y] + t)
  {
    var u := [y] + t;
    forall i, j | 0 <= i < j < |u| ensures u[i].0 <= u[j].0 {
      assert u[j] == t[j - 1];
      if i > 0 {
        assert u[i] == t[i - 1];
      }
    }
  }

  lemma {:induction false} InsertByDistanceSorted(x: Scored, s: seq<Scored>)
    requires SortedByDistance(s)
    ensures SortedByDistance(InsertByDistance(x, s))
    decreases |s|
  {
    if s == [] || x.0 <= s[0].0 {
      ConsSortedByDistance(x, s);
    } else {
      InsertByDistanceSorted(x, s[1..]);
      InsertByDistanceAbove(x, s[1..], s[0].0);
      ConsSortedByDistance(s[0], InsertByDistance(x, s[1..]));
    }
  }

  lemma AtDistanceCons(y: Scored, t: seq<Scored>, d: real)
    ensures AtDistance([y] + t, d) == (if y.0 == d then [y] else []) + AtDistance(t, d)
  {
    assert ([y] + t)[1..] == t;
  }

  lemma {:induction false} InsertByDistanceTies(x: Scored, s: seq<Scored>, d: real)
    ensures AtDistance(InsertByDistance(x, s), d) == (if x.0 == d then [x] else []) + AtDistance(s, d)
    decreases |s|
  {
    if s == [] || x.0 <= s[0].0 {
      AtDistanceCons(x, s, d);
    } else {
      var y := s[0];
      var t := InsertByDistance(x, s[1..]);
      assert InsertByDistance(x, s) == [y] + t;
      InsertByDistanceTies(x, s[1..], d);
      AtDistanceCons(y, t, d);
      assert s == [y] + s[1..];
      AtDistanceCons(y, s[1..], d);
      var a := if x.0 == d then [x] else [];
      var b := if y.0 == d then [y] else [];
      assert a == [] || b == [];
      assert b + (a + AtDistance(s[1..], d)) == a + (b + AtDistance(s[1..], d));
    }
  }

  /** The ranking is sorted by distance, a permutation of the scored
      records, and stable: the records at any one distance keep their
      order. */
  lemma {:induction false} SortByDistanceSpec(s: seq<Scored>, d: real)
    ensures multiset(SortByDistance(s)) == multiset(s)
    ensures |SortByDistance(s)| == |s|
    ensures SortedByDistance(SortByDistance(s))
    ensures AtDistance(SortByDistance(s), d) == AtDistance(s, d)
  {
    if s != [] {
      SortByDistanceSpec(s[1..], d);
      InsertByDistancePermutes(s[0], SortByDistance(s[1..]));
      InsertByDistanceSorted(s[0], SortByDistance(s[1..]));
      InsertByDistanceTies(s[0], SortByDistance(s[1..]), d);
      assert s == [s[0]] + s[1..];
      assert multiset(SortByDistance(s)) == multiset(s);
      assert |SortByDistance(s)| == |multiset(SortByDistance(s))|;
    }
  }

  /** The distance of one cleaned record title to the paper's title. */
  function Distance(dist: (string, string) -> real, title: string, paperTitle: string): real {
    dist(Lower(title), Lower(paperTitle))
  }

  /** Every record has the one-element title list the ranking writes. */
  predicate Rewritten(results: seq<Item>)
    reads set k | 0 <= k < |results| :: results[k]
  {
    forall k :: 0 <= k < |results| ==> results[k].title.Some? && |results[k].title.value| == 1
  }

  /** The scores of the records as the ranking leaves them. */
  function ScoresOf(results: seq<Item>, dist: (string, string) -> real, paperTitle: string): (r: seq<Scored>)
    requires Rewritten(results)
    reads set k | 0 <= k < |results| :: results[k]
    ensures |r| == |results|
    ensures forall k :: 0 <= k < |r| ==>
      r[k] == (Distance(dist, results[k].title.value[0], paperTitle), results[k])
    decreases |results|
  {
    if results == [] then []
    else
      assert Rewritten(results[1..]) by {
        forall k | 0 <= k < |results| - 1 ensures results[1..][k] == results[k + 1] { }
      }
      [(Distance(dist, results[0].title.value[0], paperTitle), results[0])]
        + ScoresOf(results[1..], dist, paperTitle)
  }

  /** The only list with these scores, in order, is `ScoresOf`. */
  lemma ScoresOfIs(results: seq<Item>, titles: seq<Option<seq<string>>>, dist: (string, string) -> real,
                   paperTitle: string)
    requires |titles| == |results| && WellTitled(titles) && TitlesOf(results) == CleanedTitles(titles)
    ensures Rewritten(results) && ScoresUpTo(titles, results, dist, paperTitle, |results|) == ScoresOf(results, dist, paperTitle)
  {
    forall k | 0 <= k < |results|
      ensures ScoresUpTo(titles, results, dist, paperTitle, |results|)[k] == ScoresOf(results, dist, paperTitle)[k]
    {
      ScoresUpToAt(titles, results, dist, paperTitle, |results|, k);
    }
  }

  /** The scores of the first `n` records, from their titles before the
      ranking: the distance of each cleaned first title. */
  function ScoresUpTo(titles: seq<Option<seq<string>>>, results: seq<Item>, dist: (string, string) -> real,
                      paperTitle: string, n: nat): (r: seq<Scored>)
    requires n <= |titles| == |results|
    ensures |r| == n
  {
    if n == 0 then []
    else
      var last := (Distance(dist, BasicTitleCleaning(FirstTitle(titles[n - 1])), paperTitle), results[n - 1]);
      ScoresUpTo(titles, results, dist, paperTitle, n - 1) + [last]
  }

  /** The score at `k` is that of the record at `k`. */
  lemma {:induction false} ScoresUpToAt(titles: seq<Option<seq<string>>>, results: seq<Item>,
                                        dist: (string, string) -> real, paperTitle: string, n: nat, k: nat)
    requires k < n <= |titles| == |results|
    ensures ScoresUpTo(titles, results, dist, paperTitle, n)[k] ==
      (Distance(dist, BasicTitleCleaning(FirstTitle(titles[k])), paperTitle), results[k])
  {
    if k < n - 1 {
      ScoresUpToAt(titles, results, dist, paperTitle, n - 1, k);
    }
  }

  /** The titles the records hold, in order. */
  function TitlesOf(results: seq<Item>): (ts: seq<Option<seq<string>>>)
    reads set k | 0 <= k < |results| :: results[k]
    ensures |ts| == |results| && forall k :: 0 <= k < |results| ==> ts[k] == results[k].title
  {
    seq(|results|, k requires 0 <= k < |results| reads set j | 0 <= j < |results| :: results[j] => results[k].title)
  }

  /** The exception the ranking raises for records with these titles, if
      any: a record's own title error, or the paper's missing title as soon
      as the first record is scored. */
  function RankFailure(titles: seq<Option<seq<string>>>, hasTitle: bool): Option<Error>
    decreases |titles|
  {
    if titles == [] then None
    else if TitleError(titles[0]).Some? then TitleError(titles[0])
    else if !hasTitle then Some(AttributeError("lower"))
    else RankFailure(titles[1..], hasTitle)
  }

  /** The exception for the records from `i` on: the one at `i` fails,
      the paper's title fails, or the rest decides. */
  lemma RankFailureStep(titles: seq<Option<seq<string>>>, hasTitle: bool, i: nat)
    requires i < |titles|
    ensures RankFailure(titles[i..], hasTitle) ==
      if TitleError(titles[i]).Some? then TitleError(titles[i])
      else if !hasTitle then Some(AttributeError("lower"))
      else RankFailure(titles[i + 1..], hasTitle)
  {
    assert titles[i..][1..] == titles[i + 1..];
  }

  /** The ranking fails exactly when some record's title cannot be read or
      there is a record and the paper has no title. */
  lemma {:induction false} RankFailureNone(titles: seq<Option<seq<string>>>, hasTitle: bool)
    ensures RankFailure(titles, hasTitle).None? <==>
      (forall k :: 0 <= k < |titles| ==> TitleError(titles[k]).None?) && (titles == [] || hasTitle)
    decreases |titles|
  {
    if titles != [] && TitleError(titles[0]).None? && hasTitle {
      RankFailureNone(titles[1..], hasTitle);
      assert forall k :: 1 <= k < |titles| ==> titles[k] == titles[1..][k - 1];
    }
  }

  /** The exception is that of the first record whose title cannot be
      read, unless the paper's missing title comes first. */
  lemma {:induction false} RankFailureFirst(titles: seq<Option<seq<string>>>, hasTitle: bool, i: nat)
    requires i < |titles| && TitleError(titles[i]).Some?
    requires forall k :: 0 <= k < i ==> TitleError(titles[k]).None?
    ensures RankFailure(titles, hasTitle) == if i == 0 || hasTitle then TitleError(titles[i]) else Some(AttributeError("lower"))
    decreases i
  {
    if i > 0 && hasTitle {
      RankFailureFirst(titles[1..], hasTitle, i - 1);
    }
  }

  /** `cur` with the title of every occurrence of `res` in `results` set to
      `v`: what one assignment to a record does to the list's titles. */
  function Overwrite(results: seq<Item>, cur: seq<Option<seq<string>>>, res: Item, v: Option<seq<string>>)
    : (r: seq<Option<seq<string>>>)
    requires |cur| == |results|
    ensures |r| == |cur|
    ensures forall k :: 0 <= k < |r| ==> r[k] == if results[k] == res then v else cur[k]
  {
    seq(|cur|, k requires 0 <= k < |cur| => if results[k] == res then v else cur[k])
  }

  /** The first title of a title list, "" when there is none. */
  function FirstTitle(title: Option<seq<string>>): string {
    if title.Some? && title.value != [] then title.value[0] else ""
  }

  /** Two positions holding the same record held the same title. */
  ghost predicate SameTitles(titles: seq<Option<seq<string>>>, results: seq<Item>)
    requires |titles| == |results|
  {
    forall j, k :: 0 <= j < |results| && 0 <= k < |results| && results[j] == results[k] ==> titles[j] == titles[k]
  }

  /** Cleaning has reached position `i`: the records seen so far are in
      `done`, and every record in `done`, wherever else it occurs, holds its
      cleaned first title while the others keep theirs. */
  ghost predicate Cleaning(titles: seq<Option<seq<string>>>, results: seq<Item>, done: set<Item>,
                           cur: seq<Option<seq<string>>>, i: nat)
  {
    && |titles| == |results| == |cur| && i <= |results|
    && SameTitles(titles, results)
    && (forall k :: 0 <= k < i ==> results[k] in done)
    && (forall k :: 0 <= k < |results| ==>
          if results[k] in done then
            TitleError(titles[k]).None? && cur[k] == Some([BasicTitleCleaning(titles[k].value[0])])
          else cur[k] == titles[k])
  }

  /** A record whose current title cannot be read was not cleaned before. */
  lemma CleaningFails(titles: seq<Option<seq<string>>>, results: seq<Item>, done: set<Item>,
                      cur: seq<Option<seq<string>>>, i: nat)
    requires Cleaning(titles, results, done, cur, i) && i < |results|
    requires TitleError(cur[i]).Some?
    ensures cur[i] == titles[i]
  {
  }

  /** Cleaning the record at `i` moves the cleaning one position on; a
      record met again is cleaned a second time to the same title. */
  lemma CleaningStep(titles: seq<Option<seq<string>>>, results: seq<Item>, done: set<Item>,
                     cur: seq<Option<seq<string>>>, i: nat)
    requires Cleaning(titles, results, done, cur, i) && i < |results|
    requires TitleError(cur[i]).None?
    ensures TitleError(titles[i]).None?
    ensures var v := Some([BasicTitleCleaning(cur[i].value[0])]);
      && v == Some([BasicTitleCleaning(titles[i].value[0])])
      && Cleaning(titles, results, done + {results[i]}, Overwrite(results, cur, results[i], v), i + 1)
  {
    var res := results[i];
    var v := Some([BasicTitleCleaning(cur[i].value[0])]);
    if res in done {
      BasicTitleCleaningIdempotent(titles[i].value[0]);
    }
    assert v == Some([BasicTitleCleaning(titles[i].value[0])]);
    var cur' := Overwrite(results, cur, res, v);
    forall k | 0 <= k < |results|
      ensures if results[k] in done + {res} then
          TitleError(titles[k]).None? && cur'[k] == Some([BasicTitleCleaning(titles[k].value[0])])
        else cur'[k] == titles[k]
    {
      if results[k] == res {
        assert titles[k] == titles[i];
      }
    }
  }

  /** Every record's title list has a first title. */
  predicate WellTitled(titles: seq<Option<seq<string>>>) {
    forall k :: 0 <= k < |titles| ==> TitleError(titles[k]).None?
  }

  /** What the ranking writes to each record: its cleaned first title, alone. */
  function CleanedTitles(titles: seq<Option<seq<string>>>): (r: seq<Option<seq<string>>>)
    requires WellTitled(titles)
    ensures |r| == |titles|
    ensures forall k :: 0 <= k < |r| ==> r[k].Some? && |r[k].value| == 1
  {
    seq(|titles|, k requires 0 <= k < |titles| requires WellTitled(titles) =>
      Some([BasicTitleCleaning(titles[k].value[0])]))
  }

  /** Once every record is done, every title had a first title and now
      holds its cleaned form. */
  lemma CleaningDone(titles: seq<Option<seq<string>>>, results: seq<Item>, done: set<Item>,
                     cur: seq<Option<seq<string>>>)
    requires Cleaning(titles, results, done, cur, |results|)
    ensures WellTitled(titles) && cur == CleanedTitles(titles)
  {
  }

  /** `rerankBySimilarity(results, paper)`: every record's title list
      becomes its cleaned first title, then the records are scored and
      ranked. A record without a usable title raises, and so does a paper
      without a title once there is a record to score. */
  method RerankBySimilarity(results: seq<Item>, paper: Data.Paper, dist: (string, string) -> real)
    returns (r: Result<seq<Scored>>)
    modifies set k | 0 <= k < |results| :: results[k]
    ensures var failure := RankFailure(old(TitlesOf(results)), Data.Title(paper).Some?);
      && (r.Err? <==> failure.Some?)
      && (r.Err? ==> r.error == failure.value)
    ensures r.Ok? ==> (Rewritten(results) &&
      r.value == SortByDistance(ScoresOf(results, dist, OrEmpty(Data.Title(paper)))))
    ensures r.Ok? ==> (WellTitled(old(TitlesOf(results))) &&
      TitlesOf(results) == CleanedTitles(old(TitlesOf(results))))
  {
    ghost var titles := TitlesOf(results);
    var scores := ScoreRecords(results, paper, dist);
    if scores.Err? {
      return Err(scores.error);
    }
    ScoresOfIs(results, titles, dist, OrEmpty(Data.Title(paper)));
    r := Ok(SortByDistance(scores.value));
  }

  /** The loop of `rerankBySimilarity`: each record in turn has its title
      cleaned and is scored, until a title or the paper's title fails. */
  method ScoreRecords(results: seq<Item>, paper: Data.Paper, dist: (string, string) -> real)
    returns (r: Result<seq<Scored>>)
    modifies set k | 0 <= k < |results| :: results[k]
    ensures var failure := RankFailure(old(TitlesOf(results)), Data.Title(paper).Some?);
      && (r.Err? <==> failure.Some?)
      && (r.Err? ==> r.error == failure.value)
    ensures r.Ok? ==> (WellTitled(old(TitlesOf(results))) &&
      TitlesOf(results) == CleanedTitles(old(TitlesOf(results))) &&
      r.value == ScoresUpTo(old(TitlesOf(results)), results, dist, OrEmpty(Data.Title(paper)), |results|))
  {
    ghost var titles := TitlesOf(results);
    ghost var hasTitle := Data.Title(paper).Some?;
    ghost var cur := titles;
    ghost var done: set<Item> := {};
    var paperTitle := OrEmpty(Data.Title(paper));
    var scores: seq<Scored> := [];
    assert SameTitles(titles, results);
    for i := 0 to |results|
      invariant Cleaning(titles, results, done, cur, i)
      invariant TitlesOf(results) == cur
      invariant RankFailure(titles, hasTitle) == RankFailure(titles[i..], hasTitle)
      invariant scores == ScoresUpTo(titles, results, dist, paperTitle, i)
    {
      var res := results[i];
      RankFailureStep(titles, hasTitle, i);
      if res.title.None? || res.title.value == [] {
        CleaningFails(titles, results, done, cur, i);
        return Err(if res.title.None? then KeyError("title") else IndexError);
      }
      CleaningStep(titles, results, done, cur, i);
      var cleaned := CleanRecord(results, i, cur);
      cur := Overwrite(results, cur, res, Some([cleaned]));
      done := done + {res};
      if Data.Title(paper).None? {
        return Err(AttributeError("lower"));
      }
      scores := scores + [(Distance(dist, cleaned, Data.Title(paper).value), res)];
    }
    CleaningDone(titles, results, done, cur);
    r := Ok(scores);
  }

  /** `res['title'] = [basicTitleCleaning(res['title'][0])]` for the record
      at `i`: the titles of the list change at every position holding it. */
  method CleanRecord(results: seq<Item>, i: nat, ghost cur: seq<Option<seq<string>>>) returns (cleaned: string)
    requires i < |results| && TitlesOf(results) == cur
    requires TitleError(cur[i]).None?
    modifies results[i]
    ensures cleaned == BasicTitleCleaning(cur[i].value[0])
    ensures TitlesOf(results) == Overwrite(results, cur, results[i], Some([cleaned]))
  {
    cleaned := BasicTitleCleaning(results[i].title.value[0]);
    results[i].title := Some([cleaned]);
  }

  // ---------------------------------------------------------------------
  // getDataFromSemanticScholar

  /** The request `getDataFromSemanticScholar` makes: it raises ValueError,
      before any request, for a paper whose DOI is absent or empty. */
  function SemanticScholarUrl(paper: Data.Paper): (r: Result<string>)
    ensures r.Err? <==> !HasValue(paper.bib, "doi")
    ensures r.Err? ==> r.error == ValueError("paper has no DOI")
    ensures r.Ok? ==> r.value == "https://api.semanticscholar.org/v1/paper/" + paper.bib["doi"]
  {
    match Data.Doi(paper)
    case Some(doi) =>
      if doi == "" then Err(ValueError("paper has no DOI"))
      else Ok("https://api.semanticscholar.org/v1/paper/" + doi)
    case None => Err(ValueError("paper has no DOI"))
  }
}
