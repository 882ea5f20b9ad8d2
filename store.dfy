/** The paper cache and the reconciliation of search results against it.
    The SQLite table becomes two maps: one from each identifier kind and
    identifier to the stored paper, one from a normalised title to the
    stored papers with that title, in table order. */
module Store {
  import opened Common
  import opened Data
  import opened BaseSearch

  /** The id columns, in the order `matchResultsWithPapers` tries them. */
  datatype IdType = DoiId | PmidId | ArxivId | ScholarId

  const IdOrder: seq<IdType> := [DoiId, PmidId, ArxivId, ScholarId]

  /** `getattr(paper, id_type)`: the DOI is read from the fields, the other
      three identifiers are attributes of the paper. */
  function IdOf(p: Paper, t: IdType): Option<string> {
    match t
    case DoiId => Doi(p)
    case PmidId => p.pmid
    case ArxivId => p.arxivid
    case ScholarId => p.scholarid
  }

  /** `if id_string:`: present and not empty. */
  predicate Usable(id: Option<string>) {
    id.Some? && id.value != ""
  }

  /** What reconciliation makes of one result: matched with a stored paper,
      not found, or an error because there is no title to fall back on
      (`normalizeTitle(None)` raises). */
  datatype Match = Found(paper: Paper) | Missing | NoTitle

  /** Which list a decision sends a result to, or that it raises. */
  datatype Outcome = Matched | Unmatched | Raised

  function OutcomeOf(m: Match): (o: Outcome)
    ensures o.Matched? <==> m.Found?
    ensures o.Unmatched? <==> m.Missing?
    ensures o.Raised? <==> m.NoTitle?
  {
    match m
    case Found(_) => Matched
    case Missing => Unmatched
    case NoTitle => Raised
  }

  /** The cache: the papers stored under each id kind and id, and the
      stored papers under each normalised title, in table order. Looking
      things up does not change it. */
  datatype PaperStore = PaperStore(
    byId: map<IdType, map<string, Paper>>,
    byTitle: map<string, seq<Paper>>)
  {
    /** `getPaper(id_string, id_type)`: the stored paper with that id, or
        None. */
    function GetPaper(id: string, t: IdType): (r: Option<Paper>)
      ensures r.Some? <==> t in byId && id in byId[t]
      ensures r.Some? ==> r.value == byId[t][id]
    {
      if t in byId && id in byId[t] then Some(byId[t][id]) else None
    }

    /** `findPapersByTitle(title)`: the stored papers whose normalised title
        is that of `title`, or None (never an empty list) when there is
        none; a missing title raises. */
    function FindPapersByTitle(title: Option<string>): (r: Result<Option<seq<Paper>>>)
      ensures r.Err? <==> title.None?
      ensures r.Err? ==> r.error == AttributeError("lower")
      ensures r.Ok? ==> var key := NormalizeTitle(title.value);
        && (r.value.None? <==> key !in byTitle || byTitle[key] == [])
        && (r.value.Some? ==> r.value.value != [] && r.value.value == byTitle[key])
    {
      if title.None? then Err(AttributeError("lower"))
      else
        var key := NormalizeTitle(title.value);
        if key in byTitle && byTitle[key] != [] then Ok(Some(byTitle[key])) else Ok(None)
    }

    /** The id of kind `t` is usable and a stored paper carries it. */
    predicate Hits(p: Paper, t: IdType)
    {
      Usable(IdOf(p, t)) && GetPaper(IdOf(p, t).value, t).Some?
    }

    /** The position in `order` of the first id kind that hits, or
        `|order|`. */
    function FirstHit(p: Paper, order: seq<IdType>): (k: nat)
      ensures k <= |order|
      ensures forall j :: 0 <= j < k ==> !Hits(p, order[j])
      ensures k < |order| ==> Hits(p, order[k])
    {
      if order == [] then 0
      else if Hits(p, order[0]) then 0
      else 1 + FirstHit(p, order[1..])
    }

    /** The stored paper found through the first id kind that hits. */
    function IdLookup(p: Paper): (r: Option<Paper>)
      ensures r.None? <==> forall j :: 0 <= j < |IdOrder| ==> !Hits(p, IdOrder[j])
      ensures r.Some? ==> var k := FirstHit(p, IdOrder);
        k < |IdOrder| && r.value == byId[IdOrder[k]][IdOf(p, IdOrder[k]).value]
    {
      var k := FirstHit(p, IdOrder);
      if k < |IdOrder| then Some(byId[IdOrder[k]][IdOf(p, IdOrder[k]).value]) else None
    }

    /** How one result with fields `bib` and auxiliary data `extra` is
        reconciled: an id hit wins, else the first stored paper with the
        same normalised title. */
    function Decide(bib: Fields, extra: map<string, Value>): Match
    {
      var hit := IdLookup(NewPaper(bib, extra));
      if hit.Some? then Found(hit.value)
      else if "title" !in bib then NoTitle
      else
        var key := NormalizeTitle(bib["title"]);
        if key in byTitle && byTitle[key] != [] then Found(byTitle[key][0]) else Missing
    }

    /** An id hit wins; without one, the first stored paper under the
        normalised title, if any; without a title, an error. */
    lemma DecideCases(bib: Fields, extra: map<string, Value>)
      ensures var hit := IdLookup(NewPaper(bib, extra)); var m := Decide(bib, extra);
        && (hit.Some? ==> m == Found(hit.value))
        && (hit.None? && "title" !in bib ==> m == NoTitle)
        && (hit.None? && "title" in bib ==> var key := NormalizeTitle(bib["title"]);
              m == if key in byTitle && byTitle[key] != [] then Found(byTitle[key][0]) else Missing)
    {
    }

    function DecideResult(x: SearchResult): Match
    {
      Decide(x.bib, x.extraData)
    }

    /** The outcome of one result's decision. */
    function Decider(): SearchResult -> Outcome {
      (x: SearchResult) => OutcomeOf(DecideResult(x))
    }

    /** The decision for each result, in order. */
    function Decisions(rs: seq<SearchResult>): (ms: seq<Outcome>)
      ensures |ms| == |rs|
    {
      OutcomesUpTo(rs, |rs|, Decider())
    }

    /** `matchResultsWithPapers(results)`: splits the results into found and
        missing, attaching the matched paper to each found result. A result
        with no id hit and no title raises part way through, after the
        results before it have had their papers attached. */
    method MatchResultsWithPapers(results: seq<SearchResult>)
      returns (r: Result<(seq<SearchResult>, seq<SearchResult>)>)
      modifies set x | x in results
      ensures var ms := Decisions(results); var cut := FirstRaise(ms);
        && (r.Err? <==> cut < |results|)
        && (r.Err? ==> r.error == AttributeError("lower"))
        && (r.Ok? ==> r.value == (FoundOf(results, ms), MissingOf(results, ms)))
        && forall x :: x in results ==>
             x.paper == if x in results[..cut] && DecideResult(x).Found? then Some(DecideResult(x).paper) else old(x.paper)
    {
      ghost var before := map x | x in results :: x.paper;
      ghost var ms: seq<Outcome> := [];
      var found: seq<SearchResult> := [];
      var missing: seq<SearchResult> := [];
      var i := 0;
      while i < |results|
        invariant i <= |results|
        invariant ms == OutcomesUpTo(results, i, Decider()) && FirstRaise(ms) == i
        invariant found == FoundOf(results[..i], ms) && missing == MissingOf(results[..i], ms)
        invariant Attached(results, i, before)
        invariant forall x :: x in results ==> x in before && before[x] == old(x.paper)
      {
        var result := results[i];
        var decision := Visit(results, i, before);
        if decision.Err? {
          RaiseAt(results, i);
          return Err(decision.error);
        }
        if decision.value.Found? {
          found := found + [result];
        } else {
          missing := missing + [result];
        }
        PrefixStep(results, ms, OutcomeOf(decision.value), i);
        FirstRaiseAppend(ms, OutcomeOf(decision.value));
        ms := ms + [OutcomeOf(decision.value)];
        i := i + 1;
      }
      assert results[..i] == results;
      r := Ok((found, missing));
    }

    /** The results before position `n` carry the paper they were matched
        with, when any; every other result keeps the paper it had. */
    ghost predicate Attached(results: seq<SearchResult>, n: nat, before: map<SearchResult, Option<Paper>>)
      reads set x | x in results
    {
      n <= |results|
      && forall x :: x in results ==>
           x in before && x.paper == if x in results[..n] && DecideResult(x).Found? then Some(DecideResult(x).paper) else before[x]
    }

    /** The loop body for position `i`: decide, and attach the paper when
        one is found. */
    method Visit(results: seq<SearchResult>, i: nat, ghost before: map<SearchResult, Option<Paper>>)
      returns (d: Result<Match>)
      requires i < |results| && Attached(results, i, before)
      modifies results[i]
      ensures d.Err? <==> DecideResult(results[i]).NoTitle?
      ensures d.Err? ==> d.error == AttributeError("lower")
      ensures d.Ok? ==> d.value == DecideResult(results[i]) && Attached(results, i + 1, before)
      ensures d.Err? ==> Attached(results, i, before)
    {
      var result := results[i];
      d := MatchOne(result);
      if d.Ok? && d.value.Found? {
        result.paper := Some(d.value.paper);
      }
      if d.Ok? {
        assert results[..i + 1] == results[..i] + [result];
        forall x | x in results
          ensures x.paper == if x in results[..i + 1] && DecideResult(x).Found? then Some(DecideResult(x).paper) else before[x]
        {
          if x != result {
            assert x in results[..i + 1] <==> x in results[..i];
          }
        }
      }
    }

    /** The first result that raises is the one the loop stops at. */
    lemma RaiseAt(rs: seq<SearchResult>, i: nat)
      requires i < |rs| && FirstRaise(OutcomesUpTo(rs, i, Decider())) == i && DecideResult(rs[i]).NoTitle?
      ensures FirstRaise(Decisions(rs)) == i
    {
      var all := Decisions(rs);
      forall j | 0 <= j <= i ensures all[j] == OutcomeOf(DecideResult(rs[j])) {
        OutcomesAt(rs, |rs|, j, Decider());
      }
      forall j | 0 <= j < i ensures !all[j].Raised? {
        OutcomesAt(rs, i, j, Decider());
      }
      FirstRaiseAt(all, i);
    }

    /** One pass of the loop body: the id lookups, then the title
        fallback. */
    method MatchOne(result: SearchResult) returns (d: Result<Match>)
      ensures d.Err? <==> DecideResult(result).NoTitle?
      ensures d.Err? ==> d.error == AttributeError("lower")
      ensures d.Ok? ==> d.value == DecideResult(result)
    {
      var paper := NewPaper(result.bib, result.extraData);
      var hit := LookupIds(paper);
      if hit.Some? {
        return Ok(Found(hit.value));
      }
      var records := FindPapersByTitle(Title(paper));
      if records.Err? {
        return Err(records.error);
      }
      d := Ok(if records.value.Some? then Found(records.value.value[0]) else Missing);
    }

    /** The inner loop over the id kinds, left at the first hit. */
    method LookupIds(paper: Paper) returns (hit: Option<Paper>)
      ensures hit == IdLookup(paper)
    {
      hit := None;
      var k := 0;
      while k < |IdOrder|
        invariant k <= |IdOrder|
        invariant forall j :: 0 <= j < k ==> !Hits(paper, IdOrder[j])
      {
        var idType := IdOrder[k];
        var id := IdOf(paper, idType);
        if id.Some? && id.value != "" {
          var record := GetPaper(id.value, idType);
          if record.Some? {
            assert FirstHit(paper, IdOrder) == k;
            hit := record;
            break;
          }
        }
        k := k + 1;
      }
    }

    /** The paper built from a result carries no pmid, arXiv id or Scholar
        id, so only its DOI can hit. */
    lemma OnlyDoiHits(bib: Fields, extra: map<string, Value>)
      ensures IdLookup(NewPaper(bib, extra)) ==
        if HasValue(bib, "doi") && DoiId in byId && bib["doi"] in byId[DoiId]
        then Some(byId[DoiId][bib["doi"]]) else None
    {
      var p := NewPaper(bib, extra);
      assert !Hits(p, PmidId) && !Hits(p, ArxivId) && !Hits(p, ScholarId);
      assert IdOrder[1..] == [PmidId, ArxivId, ScholarId];
      if !Hits(p, DoiId) {
        assert forall j :: 0 <= j < |IdOrder| ==> !Hits(p, IdOrder[j]);
      }
    }
  }

  /** The outcomes `decide` gives the first `n` results. */
  function OutcomesUpTo(rs: seq<SearchResult>, n: nat, decide: SearchResult -> Outcome): (ms: seq<Outcome>)
    requires n <= |rs|
    ensures |ms| == n
  {
    if n == 0 then [] else OutcomesUpTo(rs, n - 1, decide) + [decide(rs[n - 1])]
  }

  lemma {:induction false} OutcomesAt(rs: seq<SearchResult>, n: nat, j: nat, decide: SearchResult -> Outcome)
    requires j < n <= |rs|
    ensures OutcomesUpTo(rs, n, decide)[j] == decide(rs[j])
  {
    if j < n - 1 {
      OutcomesAt(rs, n - 1, j, decide);
    }
  }

  /** The results whose decision is a match, in input order. */
  function FoundOf(rs: seq<SearchResult>, ms: seq<Outcome>): seq<SearchResult>
    requires |ms| == |rs|
  {
    if rs == [] then []
    else FoundOf(rs[..|rs| - 1], ms[..|rs| - 1]) + (if ms[|rs| - 1].Matched? then [rs[|rs| - 1]] else [])
  }

  /** The results that are not found, in input order. */
  function MissingOf(rs: seq<SearchResult>, ms: seq<Outcome>): seq<SearchResult>
    requires |ms| == |rs|
  {
    if rs == [] then []
    else MissingOf(rs[..|rs| - 1], ms[..|rs| - 1]) + (if ms[|rs| - 1].Unmatched? then [rs[|rs| - 1]] else [])
  }

  /** The position of the first decision that raises, or `|ms|`. */
  function FirstRaise(ms: seq<Outcome>): (k: nat)
    ensures k <= |ms|
    ensures forall j :: 0 <= j < k ==> !ms[j].Raised?
    ensures k < |ms| ==> ms[k].Raised?
  {
    if ms == [] then 0
    else if ms[0].Raised? then 0
    else 1 + FirstRaise(ms[1..])
  }

  lemma PrefixStep(rs: seq<SearchResult>, ms: seq<Outcome>, o: Outcome, i: nat)
    requires |ms| == i < |rs|
    ensures FoundOf(rs[..i + 1], ms + [o]) == FoundOf(rs[..i], ms) + (if o.Matched? then [rs[i]] else [])
    ensures MissingOf(rs[..i + 1], ms + [o]) == MissingOf(rs[..i], ms) + (if o.Unmatched? then [rs[i]] else [])
  {
    assert rs[..i + 1][..i] == rs[..i];
    assert (ms + [o])[..i] == ms;
  }

  /** When nothing raises, every result lands in exactly one of the two
      lists, and nothing is added or lost. */
  lemma {:induction false} Partition(rs: seq<SearchResult>, ms: seq<Outcome>)
    requires |ms| == |rs| && forall j :: 0 <= j < |ms| ==> !ms[j].Raised?
    ensures multiset(FoundOf(rs, ms)) + multiset(MissingOf(rs, ms)) == multiset(rs)
    decreases |rs|
  {
    if rs != [] {
      var n := |rs| - 1;
      var init, last := rs[..n], rs[n];
      Partition(init, ms[..n]);
      assert rs == init + [last];
    }
  }

  /** Hence the two lists together are exactly as long as the input. */
  lemma PartitionSize(rs: seq<SearchResult>, ms: seq<Outcome>)
    requires |ms| == |rs| && forall j :: 0 <= j < |ms| ==> !ms[j].Raised?
    ensures |FoundOf(rs, ms)| + |MissingOf(rs, ms)| == |rs|
  {
    Partition(rs, ms);
    assert |multiset(FoundOf(rs, ms)) + multiset(MissingOf(rs, ms))| == |multiset(rs)|;
  }

  /** Both lists keep input order: those of a concatenation are those of
      its parts, in turn. */
  lemma {:induction false} FoundOfAppend(a: seq<SearchResult>, b: seq<SearchResult>, ma: seq<Outcome>, mb: seq<Outcome>)
    requires |ma| == |a| && |mb| == |b|
    ensures FoundOf(a + b, ma + mb) == FoundOf(a, ma) + FoundOf(b, mb)
    ensures MissingOf(a + b, ma + mb) == MissingOf(a, ma) + MissingOf(b, mb)
    decreases |b|
  {
    if b == [] {
      assert a + b == a && ma + mb == ma;
    } else {
      var n := |b| - 1;
      FoundOfAppend(a, b[..n], ma, mb[..n]);
      assert (a + b)[..|a + b| - 1] == a + b[..n];
      assert (ma + mb)[..|a + b| - 1] == ma + mb[..n];
    }
  }

  /** A result is in the found list exactly when some position holds it
      with a match. */
  lemma {:induction false} FoundMembers(rs: seq<SearchResult>, ms: seq<Outcome>, x: SearchResult)
    requires |ms| == |rs|
    ensures x in FoundOf(rs, ms) <==> exists j :: 0 <= j < |rs| && rs[j] == x && ms[j].Matched?
    ensures x in MissingOf(rs, ms) <==> exists j :: 0 <= j < |rs| && rs[j] == x && ms[j].Unmatched?
    decreases |rs|
  {
    if rs != [] {
      var n := |rs| - 1;
      FoundMembers(rs[..n], ms[..n], x);
      if x in FoundOf(rs[..n], ms[..n]) {
        var j :| 0 <= j < n && rs[..n][j] == x && ms[..n][j].Matched?;
        assert rs[j] == x && ms[j].Matched?;
      }
      if x in MissingOf(rs[..n], ms[..n]) {
        var j :| 0 <= j < n && rs[..n][j] == x && ms[..n][j].Unmatched?;
        assert rs[j] == x && ms[j].Unmatched?;
      }
      if (exists j :: 0 <= j < |rs| && rs[j] == x && ms[j].Matched?) && !(rs[n] == x && ms[n].Matched?) {
        var j :| 0 <= j < |rs| && rs[j] == x && ms[j].Matched?;
        assert rs[..n][j] == x && ms[..n][j].Matched?;
      }
      if (exists j :: 0 <= j < |rs| && rs[j] == x && ms[j].Unmatched?) && !(rs[n] == x && ms[n].Unmatched?) {
        var j :| 0 <= j < |rs| && rs[j] == x && ms[j].Unmatched?;
        assert rs[..n][j] == x && ms[..n][j].Unmatched?;
      }
    }
  }

  lemma FirstRaiseAppend(ms: seq<Outcome>, m: Outcome)
    requires FirstRaise(ms) == |ms| && !m.Raised?
    ensures FirstRaise(ms + [m]) == |ms| + 1
  {
    assert forall j :: 0 <= j < |ms| ==> (ms + [m])[j] == ms[j];
  }

  /** A raise after positions that do not raise is the first raise. */
  lemma FirstRaiseAt(all: seq<Outcome>, n: nat)
    requires n < |all| && all[n].Raised?
    requires forall j :: 0 <= j < n ==> !all[j].Raised?
    ensures FirstRaise(all) == n
  {
  }
}
