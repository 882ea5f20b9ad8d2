/** Rayyan screening exports: the reviewer notes of each article, the year
    hidden in the authors column, the vote counts per article, and the row
    selections made on those counts. */
module Rayyan {
  import opened Common
  import opened Text

  // ---------------------------------------------------------------------
  // Reviewer notes: `"name"=>"decision"` pairs
  // ---------------------------------------------------------------------

  /** `[\w\s\.]`, the characters of a reviewer name. */
  predicate NameChar(c: char) {
    IsWord(c) || IsSpace(c) || c == '.'
  }

  /** `[\w\s]`, the characters of a decision. */
  predicate DecisionChar(c: char) {
    IsWord(c) || IsSpace(c)
  }

  /** The pattern `"([\w\s\.]+?)"=>"([\w\s]+?)"` tried at position `i`:
      the name, the decision and the position after the match. Neither
      class holds '"', so each lazy group ends at the first character
      outside its class, which must then be the quote that follows. */
  function PairAt(s: string, i: nat): (r: Option<(string, string, nat)>)
    ensures r.Some? ==> i < r.value.2 <= |s|
  {
    if i < |s| && s[i] == '"' then
      var n := RunFrom(s, i + 1, NameChar);
      var j := i + 1 + n;
      if n > 0 && j + 4 <= |s| && s[j..j + 4] == "\"=>\"" then
        var m := RunFrom(s, j + 4, DecisionChar);
        var e := j + 4 + m;
        if m > 0 && e < |s| && s[e] == '"' then Some((s[i + 1..j], s[j + 4..e], e + 1)) else None
      else None
    else None
  }

  /** A match found by `PairAt` has a non-empty name and decision drawn
      from their classes. */
  lemma PairAtClasses(s: string, i: nat)
    requires PairAt(s, i).Some?
    ensures var (name, decision, e) := PairAt(s, i).value;
      && name != [] && decision != []
      && (forall k :: 0 <= k < |name| ==> NameChar(name[k]))
      && (forall k :: 0 <= k < |decision| ==> DecisionChar(decision[k]))
  {
    var n := RunFrom(s, i + 1, NameChar);
    var j := i + 1 + n;
    RunFromSpec(s, i + 1, NameChar);
    var m := RunFrom(s, j + 4, DecisionChar);
    var e := j + 4 + m;
    assert PairAt(s, i) == Some((s[i + 1..j], s[j + 4..e], e + 1));
    RunFromSpec(s, j + 4, DecisionChar);
    var name, decision := s[i + 1..j], s[j + 4..e];
    assert forall k :: 0 <= k < |name| ==> name[k] == s[i + 1 + k];
    assert forall k :: 0 <= k < |decision| ==> decision[k] == s[j + 4 + k];
  }

  /** A match found by `PairAt` is the quoted text it claims to be, and
      the scan resumes right after it. */
  lemma PairAtText(s: string, i: nat)
    requires PairAt(s, i).Some?
    ensures var (name, decision, e) := PairAt(s, i).value;
      && e == i + |name| + |decision| + 6
      && s[i..e] == "\"" + name + "\"=>\"" + decision + "\""
  {
    var n := RunFrom(s, i + 1, NameChar);
    var j := i + 1 + n;
    var m := RunFrom(s, j + 4, DecisionChar);
    var e := j + 4 + m;
    assert PairAt(s, i) == Some((s[i + 1..j], s[j + 4..e], e + 1));
    QuotedPair(s, i, j, e);
  }

  /** The text of a match, piece by piece. */
  lemma QuotedPair(s: string, i: nat, j: nat, e: nat)
    requires i < j && j + 4 <= e < |s|
    requires s[i] == '"' && s[j..j + 4] == "\"=>\"" && s[e] == '"'
    ensures s[i..e + 1] == "\"" + s[i + 1..j] + "\"=>\"" + s[j + 4..e] + "\""
  {
    Glue(s, i, i + 1, j);
    Glue(s, i, j, j + 4);
    Glue(s, i, j + 4, e);
    Glue(s, i, e, e + 1);
    assert s[i..i + 1] == "\"";
    assert s[e..e + 1] == "\"";
  }

  /** Adjacent slices join up. */
  lemma Glue(s: string, a: nat, b: nat, c: nat)
    requires a <= b <= c <= |s|
    ensures s[a..c] == s[a..b] + s[b..c]
  {
  }

  /** `re.findall` of the pair pattern from position `from` on: matches do
      not overlap, and the scan resumes after each one. */
  function Pairs(s: string, from: nat): seq<(string, string)>
    decreases |s| - from
  {
    if from >= |s| then []
    else match PairAt(s, from)
      case Some((name, decision, e)) => [(name, decision)] + Pairs(s, e)
      case None => Pairs(s, from + 1)
  }

  /** Every pair found is a quoted name followed by a quoted decision. */
  lemma {:induction false} PairsShape(s: string, from: nat)
    ensures forall k :: 0 <= k < |Pairs(s, from)| ==>
      Pairs(s, from)[k].0 != [] && Pairs(s, from)[k].1 != []
    decreases |s| - from
  {
    if from < |s| {
      match PairAt(s, from)
      case Some((name, decision, e)) =>
        PairAtClasses(s, from);
        PairsShape(s, e);
      case None =>
        PairsShape(s, from + 1);
    }
  }

  /** Notes without a double quote hold no reviewer pair. */
  lemma {:induction false} NoQuoteNoPairs(s: string, from: nat)
    requires forall k :: 0 <= k < |s| ==> s[k] != '"'
    ensures Pairs(s, from) == []
    decreases |s| - from
  {
    if from < |s| {
      NoQuoteNoPairs(s, from + 1);
    }
  }

  /** The reviewers dictionary after assigning the first `n` pairs in
      turn. */
  function Reviewers(pairs: seq<(string, string)>, n: nat): map<string, string>
    requires n <= |pairs|
  {
    if n == 0 then map[] else Reviewers(pairs, n - 1)[pairs[n - 1].0 := pairs[n - 1].1]
  }

  /** Exactly the names of those pairs are reviewers. */
  lemma {:induction false} ReviewersKeys(pairs: seq<(string, string)>, n: nat, name: string)
    requires n <= |pairs|
    ensures name in Reviewers(pairs, n) <==> exists k :: 0 <= k < n && pairs[k].0 == name
  {
    if n > 0 {
      ReviewersKeys(pairs, n - 1, name);
    }
  }

  /** A reviewer's entry is the decision of their last pair. */
  lemma {:induction false} ReviewersLastWins(pairs: seq<(string, string)>, n: nat, k: nat)
    requires k < n <= |pairs|
    requires forall j :: k < j < n ==> pairs[j].0 != pairs[k].0
    ensures pairs[k].0 in Reviewers(pairs, n) && Reviewers(pairs, n)[pairs[k].0] == pairs[k].1
  {
    if k < n - 1 {
      ReviewersLastWins(pairs, n - 1, k);
    }
  }

  /** Some decision among the first `n` reads 'excluded' in any case. */
  predicate AnyExcluded(pairs: seq<(string, string)>, n: nat)
    requires n <= |pairs|
  {
    exists k :: 0 <= k < n && Lower(pairs[k].1) == "excluded"
  }

  /** `[\w\s,]`, the characters of a reason or label list. */
  predicate ListChar(c: char) {
    IsWord(c) || IsSpace(c) || c == ','
  }

  /** The pattern `<tag>([\w\s,]+)` tried at position `i`: the greedy list
      after the tag, which must hold at least one character. */
  function TaggedAt(tag: string, s: string, i: nat): Option<string> {
    if i + |tag| <= |s| && s[i..i + |tag|] == tag then
      var n := RunFrom(s, i + |tag|, ListChar);
      if n > 0 then Some(s[i + |tag|..i + |tag| + n]) else None
    else None
  }

  function ReasonsAt(s: string, i: nat): Option<string> {
    TaggedAt("RAYYAN-EXCLUSION-REASONS: ", s, i)
  }

  function LabelsAt(s: string, i: nat): Option<string> {
    TaggedAt("RAYYAN-LABELS: ", s, i)
  }

  /** The comma-split list of the first match of a tagged pattern, or
      nothing when the notes have none. */
  function TaggedList(s: string, at: (string, nat) -> Option<string>): seq<string> {
    match Group(s, at)
    case Some(list) => Split(list, ",")
    case None => []
  }

  /** `re.search(...)` followed by `match.group(1)`: what the leftmost
      match of a tagged pattern captured. */
  function Group(s: string, at: (string, nat) -> Option<string>): Option<string> {
    match SearchFrom(s, 0, at)
    case Some((_, list)) => Some(list)
    case None => None
  }

  /** The list found after a tag holds only list characters, ends where they
      end, and is the first such match in the notes. */
  lemma TaggedAtSpec(tag: string, s: string, i: nat)
    requires TaggedAt(tag, s, i).Some?
    ensures var list := TaggedAt(tag, s, i).value;
      && list != []
      && (forall k :: 0 <= k < |list| ==> ListChar(list[k]))
      && i + |tag| + |list| <= |s|
      && s[i..i + |tag| + |list|] == tag + list
      && (i + |tag| + |list| == |s| || !ListChar(s[i + |tag| + |list|]))
  {
    RunFromSpec(s, i + |tag|, ListChar);
    var n := RunFrom(s, i + |tag|, ListChar);
    assert s[i..i + |tag| + n] == s[i..i + |tag|] + s[i + |tag|..i + |tag| + n];
  }

  /** `labels` after `count` pairs: the label list appended once per pair. */
  function Repeat(xs: seq<string>, count: nat): seq<string> {
    if count == 0 then [] else Repeat(xs, count - 1) + xs
  }

  /** `count` copies of the list. */
  lemma {:induction false} RepeatLength(xs: seq<string>, count: nat)
    ensures |Repeat(xs, count)| == count * |xs|
  {
    if count > 0 {
      RepeatLength(xs, count - 1);
    }
  }

  /** The copies for `a + b` pairs are those for `a` pairs followed by
      those for `b` pairs. */
  lemma {:induction false} RepeatSplit(xs: seq<string>, a: nat, b: nat)
    ensures Repeat(xs, a + b) == Repeat(xs, a) + Repeat(xs, b)
  {
    if b > 0 {
      RepeatSplit(xs, a, b - 1);
      assert Repeat(xs, a + b) == Repeat(xs, a + b - 1) + xs;
      assert Repeat(xs, b) == Repeat(xs, b - 1) + xs;
    }
  }

  /** Among `count` copies, copy `c` is the whole list. */
  lemma RepeatCopy(xs: seq<string>, count: nat, c: nat)
    requires c < count
    ensures Repeat(xs, count) == Repeat(xs, c) + xs + Repeat(xs, count - c - 1)
  {
    RepeatSplit(xs, c + 1, count - c - 1);
    assert Repeat(xs, c + 1) == Repeat(xs, c) + xs;
  }

  /** `parseInclusion(text)`: each reviewer's last decision; the exclusion
      reasons once some decision is 'excluded' (reset each time, so never
      repeated); and the labels once per pair. */
  method ParseInclusion(text: string) returns (reviewers: map<string, string>, exclusionReasons: seq<string>, labels: seq<string>)
    ensures reviewers == Reviewers(Pairs(text, 0), |Pairs(text, 0)|)
    ensures exclusionReasons == if AnyExcluded(Pairs(text, 0), |Pairs(text, 0)|) then TaggedList(text, ReasonsAt) else []
    ensures labels == Repeat(TaggedList(text, LabelsAt), |Pairs(text, 0)|)
  {
    var pairs := Pairs(text, 0);
    ghost var reasons, labelList := TaggedList(text, ReasonsAt), TaggedList(text, LabelsAt);
    reviewers := map[];
    exclusionReasons := [];
    labels := [];
    for i := 0 to |pairs|
      invariant reviewers == Reviewers(pairs, i)
      invariant exclusionReasons == if AnyExcluded(pairs, i) then reasons else []
      invariant labels == Repeat(labelList, i)
    {
      var name, decision := pairs[i].0, pairs[i].1;
      AnyExcludedStep(pairs, i);
      assert Reviewers(pairs, i + 1) == Reviewers(pairs, i)[name := decision];
      assert Repeat(labelList, i + 1) == Repeat(labelList, i) + labelList;
      reviewers := reviewers[name := decision];
      exclusionReasons := ReasonsStep(text, decision, exclusionReasons);
      labels := LabelsStep(text, labels);
    }
  }

  /** The exclusion-reason step for one decision: on 'excluded', in any
      case, the reasons are reset and read again from the notes. */
  method ReasonsStep(text: string, decision: string, current: seq<string>) returns (reasons: seq<string>)
    ensures Lower(decision) == "excluded" ==> reasons == TaggedList(text, ReasonsAt)
    ensures Lower(decision) != "excluded" ==> reasons == current
  {
    reasons := current;
    if Lower(decision) == "excluded" {
      reasons := [];
      var found, list := SearchList(text, ReasonsAt);
      if found {
        reasons := reasons + list;
      }
    }
  }

  /** The label step for one pair: the labels in the notes, if any, are
      appended again. */
  method LabelsStep(text: string, current: seq<string>) returns (labels: seq<string>)
    ensures labels == current + TaggedList(text, LabelsAt)
  {
    labels := current;
    var found, list := SearchList(text, LabelsAt);
    if found {
      labels := labels + list;
    }
  }

  lemma AnyExcludedStep(pairs: seq<(string, string)>, i: nat)
    requires i < |pairs|
    ensures AnyExcluded(pairs, i + 1) <==> AnyExcluded(pairs, i) || Lower(pairs[i].1) == "excluded"
  {
    if Lower(pairs[i].1) == "excluded" {
      assert 0 <= i < i + 1 && Lower(pairs[i].1) == "excluded";
    }
  }

  /** `re.search` of a tagged pattern and, when it matches, the comma-split
      group. */
  method SearchList(text: string, at: (string, nat) -> Option<string>) returns (found: bool, list: seq<string>)
    ensures found <==> Group(text, at).Some?
    ensures list == TaggedList(text, at)
    ensures !found ==> list == []
  {
    var m := Group(text, at);
    found := m.Some?;
    list := if found then Split(m.value, ",") else [];
  }

  // ---------------------------------------------------------------------
  // The year hidden in the authors column
  // ---------------------------------------------------------------------

  /** One row of the articles table: its cells by column. */
  type Row = map<string, Value>

  /** The pattern `PY - (\d+)\/+?` tried at position `i`: the digits. The
      greedy digit run can only be followed by the '/' if it is maximal. */
  function YearAt(s: string, i: nat): Option<string> {
    if i + 5 <= |s| && s[i..i + 5] == "PY - " then
      var n := RunFrom(s, i + 5, IsDigit);
      if n > 0 && i + 5 + n < |s| && s[i + 5 + n] == '/' then Some(s[i + 5..i + 5 + n]) else None
    else None
  }

  /** "PY - " + d + "/" starts at `i`, with `d` a non-empty digit string. */
  predicate YearMarkAt(s: string, i: nat, d: string) {
    && d != [] && (forall k :: 0 <= k < |d| ==> IsDigit(d[k]))
    && i + |d| + 6 <= |s| && s[i..i + |d| + 6] == "PY - " + d + "/"
  }

  /** Every year `YearAt` finds is a year mark. */
  lemma YearAtMark(s: string, i: nat)
    requires YearAt(s, i).Some?
    ensures YearMarkAt(s, i, YearAt(s, i).value)
  {
    RunFromSpec(s, i + 5, IsDigit);
    var n := RunFrom(s, i + 5, IsDigit);
    Glue(s, i, i + 5, i + 5 + n);
    Glue(s, i, i + 5 + n, i + 6 + n);
    assert s[i + 5 + n..i + 6 + n] == "/";
  }

  /** Every year mark is found by `YearAt`. */
  lemma MarkYearAt(s: string, i: nat, d: string)
    requires YearMarkAt(s, i, d)
    ensures YearAt(s, i) == Some(d)
  {
    var w := "PY - " + d + "/";
    var t := s[i..i + |d| + 6];
    assert s[i..i + 5] == t[..5] == w[..5];
    forall k | 0 <= k < |d| ensures s[i + 5 + k] == d[k] {
      assert s[i + 5 + k] == t[5 + k] == w[5 + k];
    }
    assert s[i + 5..i + 5 + |d|] == d;
    assert s[i + 5 + |d|] == t[5 + |d|] == w[5 + |d|] == '/';
    EverySlice(s, i + 5, i + 5 + |d|, d, IsDigit);
    RunFromEnd(s, i + 5, i + 5 + |d|, IsDigit);
  }

  /** The year step of `loadRayyan` on one row: when the authors hold
      "PY - <digits>/", the year becomes the digits of the leftmost such
      match and the authors are cut to the text before it. `re.search`
      needs a string: a row without authors raises KeyError, and a
      non-string cell (an empty CSV cell reads as NaN) raises TypeError. */
  function TrimYear(row: Row): Result<Row> {
    if "authors" !in row then Err(KeyError("authors"))
    else if !row["authors"].VStr? then Err(TypeError)
    else
      var authors := row["authors"].s;
      match SearchFrom(authors, 0, YearAt)
      case Some((start, digits)) => Ok(row["year" := VStr(digits)]["authors" := VStr(authors[..start])])
      case None => Ok(row)
  }

  /** With a year mark at `i` and none before it, the row gets that year
      and the authors before `i`. */
  lemma TrimYearFound(row: Row, i: nat, d: string)
    requires "authors" in row && row["authors"].VStr? && YearMarkAt(row["authors"].s, i, d)
    requires forall j: nat, e :: j < i ==> !YearMarkAt(row["authors"].s, j, e)
    ensures TrimYear(row) == Ok(row["year" := VStr(d)]["authors" := VStr(row["authors"].s[..i])])
  {
    var a := row["authors"].s;
    MarkYearAt(a, i, d);
    var found := SearchFrom(a, 0, YearAt);
    assert found.Some?;
    if found.value.0 < i {
      YearAtMark(a, found.value.0);
      assert false;
    }
  }

  /** Without a year mark anywhere, the row is left as it is. */
  lemma TrimYearNotFound(row: Row)
    requires "authors" in row && row["authors"].VStr?
    requires forall i: nat, d :: !YearMarkAt(row["authors"].s, i, d)
    ensures TrimYear(row) == Ok(row)
  {
    var a := row["authors"].s;
    var found := SearchFrom(a, 0, YearAt);
    if found.Some? {
      YearAtMark(a, found.value.0);
      assert false;
    }
  }

  /** The number of leading rows whose year step succeeds. */
  function Trimmable(rows: seq<Row>): (n: nat)
    ensures n <= |rows|
    ensures forall k :: 0 <= k < n ==> TrimYear(rows[k]).Ok?
    ensures n < |rows| ==> TrimYear(rows[n]).Err?
  {
    if rows == [] || TrimYear(rows[0]).Err? then 0 else 1 + Trimmable(rows[1..])
  }

  /** The year loop of `loadRayyan`, updating the table in place row by
      row. An error stops it with the rows before the failing one already
      updated. */
  method TrimYears(rows: array<Row>) returns (err: Option<Error>)
    modifies rows
    ensures err.None? <==> Trimmable(old(rows[..])) == rows.Length
    ensures err.Some? ==> err.value == old(TrimYear(rows[Trimmable(rows[..])]).error)
    ensures forall k :: 0 <= k < rows.Length ==>
      rows[k] == if k < Trimmable(old(rows[..])) then TrimYear(old(rows[k])).value else old(rows[k])
  {
    ghost var was := rows[..];
    var i := 0;
    while i < rows.Length
      invariant i <= Trimmable(was)
      invariant forall k :: 0 <= k < i ==> rows[k] == TrimYear(was[k]).value
      invariant forall k :: i <= k < rows.Length ==> rows[k] == was[k]
    {
      var t := TrimYear(rows[i]);
      if t.Err? {
        return Some(t.error);
      }
      rows[i] := t.value;
      i := i + 1;
    }
    err := None;
  }

  // ---------------------------------------------------------------------
  // Vote counts
  // ---------------------------------------------------------------------

  /** `row.get(key)`. */
  function Cell(row: Row, key: string): Value {
    if key in row then row[key] else VNone
  }

  /** The number of reviewer columns whose cell is exactly the string
      `decision`. */
  function Votes(row: Row, titles: seq<string>, decision: string): nat {
    if titles == [] then 0
    else Votes(row, titles[..|titles| - 1], decision) + (if Cell(row, titles[|titles| - 1]) == VStr(decision) then 1 else 0)
  }

  /** The counting loop of `loadRayyan` for one row; each cell counts for at
      most one of the three decisions. */
  method CountVotes(row: Row, titles: seq<string>) returns (included: nat, excluded: nat, maybe: nat)
    ensures included == Votes(row, titles, "Included")
    ensures excluded == Votes(row, titles, "Excluded")
    ensures maybe == Votes(row, titles, "Maybe")
  {
    included, excluded, maybe := 0, 0, 0;
    for i := 0 to |titles|
      invariant included == Votes(row, titles[..i], "Included")
      invariant excluded == Votes(row, titles[..i], "Excluded")
      invariant maybe == Votes(row, titles[..i], "Maybe")
    {
      assert titles[..i + 1][..i] == titles[..i];
      var cell := Cell(row, titles[i]);
      if cell == VStr("Included") {
        included := included + 1;
      } else if cell == VStr("Excluded") {
        excluded := excluded + 1;
      } else if cell == VStr("Maybe") {
        maybe := maybe + 1;
      }
    }
    assert titles[..|titles|] == titles;
  }

  /** The counts of all rows, in row order. */
  method CountAllVotes(rows: seq<Row>, titles: seq<string>) returns (included: seq<nat>, excluded: seq<nat>, maybe: seq<nat>)
    ensures |included| == |rows| && |excluded| == |rows| && |maybe| == |rows|
    ensures forall k :: 0 <= k < |rows| ==>
      && included[k] == Votes(rows[k], titles, "Included")
      && excluded[k] == Votes(rows[k], titles, "Excluded")
      && maybe[k] == Votes(rows[k], titles, "Maybe")
  {
    included, excluded, maybe := [], [], [];
    for i := 0 to |rows|
      invariant |included| == i && |excluded| == i && |maybe| == i
      invariant forall k :: 0 <= k < i ==>
        && included[k] == Votes(rows[k], titles, "Included")
        && excluded[k] == Votes(rows[k], titles, "Excluded")
        && maybe[k] == Votes(rows[k], titles, "Maybe")
    {
      var inc, exc, may := CountVotes(rows[i], titles);
      included, excluded, maybe := included + [inc], excluded + [exc], maybe + [may];
    }
  }

  /** No row has more votes than there are reviewer columns. */
  lemma {:induction false} VotesBound(row: Row, titles: seq<string>)
    ensures Votes(row, titles, "Included") + Votes(row, titles, "Excluded") + Votes(row, titles, "Maybe") <= |titles|
  {
    if titles != [] {
      VotesBound(row, titles[..|titles| - 1]);
    }
  }

  /** A decision counts only when a cell is exactly that string: with no such
      cell, the count is zero. */
  lemma {:induction false} VotesExact(row: Row, titles: seq<string>, decision: string)
    requires forall k :: 0 <= k < |titles| ==> Cell(row, titles[k]) != VStr(decision)
    ensures Votes(row, titles, decision) == 0
  {
    if titles != [] {
      VotesExact(row, titles[..|titles| - 1], decision);
    }
  }

  /** A lower-case 'included' cell is no 'Included' vote. */
  lemma LowerCaseIsNoVote(name: string)
    ensures Votes(map[name := VStr("included")], [name], "Included") == 0
  {
    VotesExact(map[name := VStr("included")], [name], "Included");
  }

  // ---------------------------------------------------------------------
  // Row selections
  // ---------------------------------------------------------------------

  /** The articles table once loaded: its columns and its rows. */
  datatype Frame = Frame(columns: set<string>, rows: seq<Row>)

  /** Every row has a cell for exactly the table's columns. */
  predicate Valid(f: Frame) {
    forall k :: 0 <= k < |f.rows| ==> f.rows[k].Keys == f.columns
  }

  /** The count columns present hold integers, as the counting step writes
      them. */
  predicate Counted(f: Frame) {
    forall k, c :: 0 <= k < |f.rows| && c in f.rows[k] && IsCountColumn(c) ==> f.rows[k][c].VInt?
  }

  predicate IsCountColumn(c: string) {
    c == "included_count" || c == "excluded_count" || c == "maybe_count"
  }

  /** The integer in a count cell. */
  function Count(row: Row, column: string): int {
    if column in row && row[column].VInt? then row[column].i else 0
  }

  /** `df[mask]`: the rows that satisfy `keep`, in order. */
  function Where(rows: seq<Row>, keep: Row -> bool): seq<Row> {
    if rows == [] then []
    else Where(rows[..|rows| - 1], keep) + (if keep(rows[|rows| - 1]) then [rows[|rows| - 1]] else [])
  }

  /** The selection holds exactly the rows that satisfy `keep`. */
  lemma {:induction false} WhereMembers(rows: seq<Row>, keep: Row -> bool, r: Row)
    ensures r in Where(rows, keep) <==> r in rows && keep(r)
  {
    if rows != [] {
      var p := rows[..|rows| - 1];
      WhereMembers(p, keep, r);
      assert rows == p + [rows[|rows| - 1]];
    }
  }

  /** The selection keeps the rows in their order. */
  lemma {:induction false} WhereOrder(rows: seq<Row>, keep: Row -> bool)
    ensures Subsequence(Where(rows, keep), rows)
  {
    if rows != [] {
      var p := rows[..|rows| - 1];
      WhereOrder(p, keep);
      var w := Where(p, keep);
      var last := rows[|rows| - 1];
      if keep(last) {
        assert Where(rows, keep) == w + [last];
        assert Where(rows, keep)[..|Where(rows, keep)| - 1] == w;
      } else {
        assert Where(rows, keep) == w;
      }
    }
  }

  /** The mask `df[column] > 0`. */
  function Positive(column: string): Row -> bool {
    r => Count(r, column) > 0
  }

  /** The count column `filterDFForInclusion` tests for a screen. */
  function ScreenColumn(screen: string): Option<string> {
    if screen == "Included" then Some("included_count")
    else if screen == "Excluded" then Some("excluded_count")
    else if screen == "Maybe" then Some("maybe_count")
    else None
  }

  /** `filterDFForInclusion(df, screen)`: the rows with a positive count for
      the screen; Ok(None) for an unknown screen (the function falls off
      its end); KeyError when the count column is missing. */
  function FilterForInclusion(f: Frame, screen: string): (r: Result<Option<Frame>>)
    requires Counted(f)
    ensures r == Ok(None) <==> screen != "Included" && screen != "Excluded" && screen != "Maybe"
    ensures r.Err? <==> ScreenColumn(screen).Some? && ScreenColumn(screen).value !in f.columns
  {
    match ScreenColumn(screen)
    case None => Ok(None)
    case Some(c) =>
      if c !in f.columns then Err(KeyError(c))
      else Ok(Some(Frame(f.columns, Where(f.rows, Positive(c)))))
  }

  /** For a known screen whose column exists, the rows kept are exactly the
      rows whose count is positive, in order, with all their columns. */
  lemma FilterForInclusionKeeps(f: Frame, screen: string, c: string)
    requires Valid(f) && Counted(f) && ScreenColumn(screen) == Some(c) && c in f.columns
    ensures FilterForInclusion(f, screen).Ok? && FilterForInclusion(f, screen).value.Some?
    ensures var g := FilterForInclusion(f, screen).value.value;
      && g.columns == f.columns && Valid(g)
      && (forall r :: r in g.rows <==> r in f.rows && Count(r, c) > 0)
      && Subsequence(g.rows, f.rows)
  {
    WhereOrder(f.rows, Positive(c));
    var g := FilterForInclusion(f, screen).value.value;
    forall r ensures r in g.rows <==> r in f.rows && Count(r, c) > 0 {
      WhereMembers(f.rows, Positive(c), r);
    }
    forall k | 0 <= k < |g.rows| ensures g.rows[k].Keys == g.columns {
      assert g.rows[k] in g.rows;
    }
  }

  /** `DROP_FIELDS`, the columns dropped from a selection. */
  const DropFields: seq<string> := ["key", "issn", "volume", "pages", "issue", "language", "location", "notes", "journal", "day", "month", "maybe_count"]

  /** The first of `fields` that is not a column: pandas refuses to drop a
      label it does not have. Its KeyError lists every missing label; the
      model keeps only the first, so the failure condition is exact but the
      message is not. */
  function FirstMissing(fields: seq<string>, columns: set<string>): (r: Option<string>)
    ensures r.Some? ==> r.value in fields && r.value !in columns
    ensures r.None? ==> forall k :: 0 <= k < |fields| ==> fields[k] in columns
  {
    if fields == [] then None
    else if fields[0] !in columns then Some(fields[0])
    else FirstMissing(fields[1..], columns)
  }

  /** Each row without the dropped columns. */
  function DropRows(rows: seq<Row>): (r: seq<Row>)
    ensures |r| == |rows|
    ensures forall k :: 0 <= k < |rows| ==> r[k] == rows[k] - (set f | f in DropFields)
  {
    if rows == [] then [] else DropRows(rows[..|rows| - 1]) + [rows[|rows| - 1] - (set f | f in DropFields)]
  }

  /** Dropping the columns keeps a subsequence a subsequence. */
  lemma {:induction false} DropRowsSubsequence(xs: seq<Row>, ys: seq<Row>)
    requires Subsequence(xs, ys)
    ensures Subsequence(DropRows(xs), DropRows(ys))
    decreases |ys|
  {
    if xs != [] {
      var ys' := ys[..|ys| - 1];
      assert DropRows(ys)[..|ys| - 1] == DropRows(ys');
      if xs[|xs| - 1] == ys[|ys| - 1] && Subsequence(xs[..|xs| - 1], ys') {
        DropRowsSubsequence(xs[..|xs| - 1], ys');
        assert DropRows(xs)[..|xs| - 1] == DropRows(xs[..|xs| - 1]);
      } else {
        DropRowsSubsequence(xs, ys');
      }
    }
  }

  /** `res.drop(DROP_FIELDS, axis=1)`. */
  function Drop(f: Frame): Result<Frame> {
    match FirstMissing(DropFields, f.columns)
    case Some(c) => Err(KeyError(c))
    case None => Ok(Frame(f.columns - (set c | c in DropFields), DropRows(f.rows)))
  }

  /** The masks of the two selections on vote counts. */
  datatype Selection =
    | AtLeast(minAgreement: int)
    | Exactly(includeCount: int, excludeCount: int)

  predicate Selects(sel: Selection, r: Row) {
    match sel
    case AtLeast(m) => Count(r, "included_count") >= m
    case Exactly(i, e) => Count(r, "included_count") == i && Count(r, "excluded_count") == e
  }

  function Mask(sel: Selection): Row -> bool {
    r => Selects(sel, r)
  }

  /** The counts a mask tests survive the drop. */
  lemma SelectsAfterDrop(sel: Selection, r: Row)
    ensures Selects(sel, r - (set c | c in DropFields)) == Selects(sel, r)
  {
    var drop := set c | c in DropFields;
    assert "included_count" !in drop && "excluded_count" !in drop;
    assert Count(r - drop, "included_count") == Count(r, "included_count");
    assert Count(r - drop, "excluded_count") == Count(r, "excluded_count");
  }

  /** `selectPapersToReview(df, min_agreement)`: the rows with at least
      `minAgreement` inclusion votes, without the dropped columns. */
  function SelectPapersToReview(f: Frame, minAgreement: int): (r: Result<Frame>)
    requires Counted(f)
    ensures "included_count" !in f.columns ==> r == Err(KeyError("included_count"))
  {
    if "included_count" !in f.columns then Err(KeyError("included_count"))
    else Drop(Frame(f.columns, Where(f.rows, Mask(AtLeast(minAgreement)))))
  }

  /** `selectPapersToFilter(df, include_count, exclude_count)`: the rows
      whose inclusion and exclusion votes are exactly the given numbers,
      without the dropped columns. */
  function SelectPapersToFilter(f: Frame, includeCount: int, excludeCount: int): (r: Result<Frame>)
    requires Counted(f)
    ensures "included_count" !in f.columns ==> r == Err(KeyError("included_count"))
    ensures "included_count" in f.columns && "excluded_count" !in f.columns ==> r == Err(KeyError("excluded_count"))
  {
    if "included_count" !in f.columns then Err(KeyError("included_count"))
    else if "excluded_count" !in f.columns then Err(KeyError("excluded_count"))
    else Drop(Frame(f.columns, Where(f.rows, Mask(Exactly(includeCount, excludeCount)))))
  }

  /** What a selection followed by the drop promises: it fails exactly when
      a dropped column is missing; otherwise the columns lose the dropped
      ones, every row satisfies the selection, every input row that
      satisfies it is there without the dropped columns, and rows keep their
      order. */
  lemma DropSelection(f: Frame, sel: Selection)
    requires Valid(f)
    ensures Drop(Frame(f.columns, Where(f.rows, Mask(sel)))).Err? <==> exists k :: 0 <= k < |DropFields| && DropFields[k] !in f.columns
    ensures var g := Drop(Frame(f.columns, Where(f.rows, Mask(sel))));
      g.Ok? ==>
        && g.value.columns == f.columns - (set c | c in DropFields) && Valid(g.value)
        && (forall r :: r in g.value.rows ==> Selects(sel, r))
        && (forall r :: r in f.rows && Selects(sel, r) ==> r - (set c | c in DropFields) in g.value.rows)
        && Subsequence(g.value.rows, DropRows(f.rows))
  {
    var drop := set c | c in DropFields;
    var w := Where(f.rows, Mask(sel));
    var g := Drop(Frame(f.columns, w));
    if g.Ok? {
      var d := DropRows(w);
      forall r | r in g.value.rows ensures Selects(sel, r) {
        var k :| 0 <= k < |d| && d[k] == r;
        assert w[k] in w;
        WhereMembers(f.rows, Mask(sel), w[k]);
        SelectsAfterDrop(sel, w[k]);
      }
      forall k | 0 <= k < |d| ensures d[k].Keys == g.value.columns {
        assert w[k] in w;
        WhereMembers(f.rows, Mask(sel), w[k]);
      }
      forall r | r in f.rows && Selects(sel, r) ensures r - drop in g.value.rows {
        WhereMembers(f.rows, Mask(sel), r);
        var k :| 0 <= k < |w| && w[k] == r;
        assert d[k] == r - drop;
      }
      WhereOrder(f.rows, Mask(sel));
      DropRowsSubsequence(w, f.rows);
    }
  }

  lemma SelectPapersToReviewSpec(f: Frame, minAgreement: int)
    requires Valid(f) && Counted(f) && "included_count" in f.columns
    ensures SelectPapersToReview(f, minAgreement).Err? <==> exists k :: 0 <= k < |DropFields| && DropFields[k] !in f.columns
    ensures var g := SelectPapersToReview(f, minAgreement);
      g.Ok? ==>
        && g.value.columns == f.columns - (set c | c in DropFields) && Valid(g.value)
        && (forall r :: r in g.value.rows ==> Count(r, "included_count") >= minAgreement)
        && (forall r :: r in f.rows && Count(r, "included_count") >= minAgreement ==> r - (set c | c in DropFields) in g.value.rows)
        && Subsequence(g.value.rows, DropRows(f.rows))
  {
    DropSelection(f, AtLeast(minAgreement));
  }

  lemma SelectPapersToFilterSpec(f: Frame, includeCount: int, excludeCount: int)
    requires Valid(f) && Counted(f) && "included_count" in f.columns && "excluded_count" in f.columns
    ensures SelectPapersToFilter(f, includeCount, excludeCount).Err? <==> exists k :: 0 <= k < |DropFields| && DropFields[k] !in f.columns
    ensures var g := SelectPapersToFilter(f, includeCount, excludeCount);
      g.Ok? ==>
        && g.value.columns == f.columns - (set c | c in DropFields) && Valid(g.value)
        && (forall r :: r in g.value.rows ==> Count(r, "included_count") == includeCount && Count(r, "excluded_count") == excludeCount)
        && (forall r :: r in f.rows && Count(r, "included_count") == includeCount && Count(r, "excluded_count") == excludeCount ==>
              r - (set c | c in DropFields) in g.value.rows)
        && Subsequence(g.value.rows, DropRows(f.rows))
  {
    DropSelection(f, Exactly(includeCount, excludeCount));
  }
}
