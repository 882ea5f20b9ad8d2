/** Turning search results into BibTeX entries: each result's field
    dictionary gets an entry type and an `id<position>` key when it lacks
    them, in place. */
module ReferencesBibtex {
  import opened Common
  import opened Text

  /** The key `convert_result` gives an entry without one. */
  function PositionId(index: nat): (r: string)
    ensures |r| > 2 && r[..2] == "id"
  {
    "id" + NatToString(index)
  }

  /** The fields once converted: ENTRYTYPE defaults to "ARTICLE" and ID to
      the position's key; every field already present is kept as it is. */
  function Converted(f: Fields, index: nat): Fields {
    var g := if "ENTRYTYPE" in f then f else f["ENTRYTYPE" := "ARTICLE"];
    if "ID" in g then g else g["ID" := PositionId(index)]
  }

  lemma ConvertedSpec(f: Fields, index: nat)
    ensures forall k :: k in f ==> k in Converted(f, index) && Converted(f, index)[k] == f[k]
    ensures Converted(f, index).Keys == f.Keys + {"ENTRYTYPE", "ID"}
    ensures "ENTRYTYPE" !in f ==> Converted(f, index)["ENTRYTYPE"] == "ARTICLE"
    ensures "ID" !in f ==> Converted(f, index)["ID"] == PositionId(index)
  {
  }

  /** Converting a converted entry again, whatever the position, changes
      nothing. */
  lemma ConvertedIdempotent(f: Fields, i: nat, j: nat)
    ensures Converted(Converted(f, i), j) == Converted(f, i)
  {
    var g := Converted(f, i);
    ConvertedSpec(f, i);
    ConvertedSpec(g, j);
    assert Converted(g, j).Keys == g.Keys;
  }

  /** Only ENTRYTYPE and ID can change, and only by being added. */
  lemma ConvertedOnlyAdds(f: Fields, index: nat, k: string)
    requires k != "ENTRYTYPE" && k != "ID"
    ensures k in Converted(f, index) <==> k in f
    ensures k in f ==> Converted(f, index)[k] == f[k]
  {
    ConvertedSpec(f, index);
  }

  /** The objects a sequence of results can reach through their "bib" key. */
  function Reachable(results: seq<Option<Bib>>): set<Bib> {
    set k | 0 <= k < |results| && results[k].Some? :: results[k].value
  }

  /** `convert_result(result, index)`; `result` is the `result["bib"]`
      entry of a result dictionary, None when that key is absent. */
  method ConvertResult(result: Option<Bib>, index: nat) returns (r: Result<Bib>)
    modifies if result.Some? then {result.value} else {}
    ensures result.None? ==> r == Err(KeyError("bib"))
    ensures result.Some? ==> r == Ok(result.value)
    ensures result.Some? ==> result.value.fields == Converted(old(result.value.fields), index)
  {
    if result.None? {
      return Err(KeyError("bib"));
    }
    var bib := result.value;
    if "ENTRYTYPE" !in bib.fields {
      bib.fields := bib.fields["ENTRYTYPE" := "ARTICLE"];
    }
    if "ID" !in bib.fields {
      bib.fields := bib.fields["ID" := PositionId(index)];
    }
    r := Ok(bib);
  }

  /** The first position from `j` on that holds the same object as position
      `k`. */
  function FirstSlotFrom(results: seq<Option<Bib>>, k: nat, j: nat): (r: nat)
    requires j <= k < |results|
    ensures j <= r <= k
    decreases k - j
  {
    if results[j] == results[k] then j else FirstSlotFrom(results, k, j + 1)
  }

  lemma {:induction false} FirstSlotFromSpec(results: seq<Option<Bib>>, k: nat, j: nat)
    requires j <= k < |results|
    ensures results[FirstSlotFrom(results, k, j)] == results[k]
    ensures forall m :: j <= m < FirstSlotFrom(results, k, j) ==> results[m] != results[k]
    decreases k - j
  {
    if results[j] != results[k] {
      FirstSlotFromSpec(results, k, j + 1);
    }
  }

  /** The position whose index an entry is numbered with: its first
      occurrence among the results. */
  function FirstSlot(results: seq<Option<Bib>>, k: nat): (r: nat)
    requires k < |results|
    ensures r <= k
  {
    FirstSlotFrom(results, k, 0)
  }

  lemma FirstSlotSpec(results: seq<Option<Bib>>, k: nat)
    requires k < |results|
    ensures results[FirstSlot(results, k)] == results[k]
    ensures forall m :: 0 <= m < FirstSlot(results, k) ==> results[m] != results[k]
  {
    FirstSlotFromSpec(results, k, 0);
  }

  /** Positions holding the same object are numbered alike. */
  lemma FirstSlotShared(results: seq<Option<Bib>>, k: nat, l: nat)
    requires k < |results| && l < |results| && results[k] == results[l]
    ensures FirstSlot(results, k) == FirstSlot(results, l)
  {
    FirstSlotSpec(results, k);
    FirstSlotSpec(results, l);
  }

  /** The first position whose result has no "bib" key, or the length when
      every result has one. */
  function Ready(results: seq<Option<Bib>>): (n: nat)
    ensures n <= |results|
    ensures forall k :: 0 <= k < n ==> results[k].Some?
    ensures n < |results| ==> results[n].None?
  {
    if results == [] || results[0].None? then 0 else 1 + Ready(results[1..])
  }

  /** The fields `was` of a result at position `k` after the results before position `done` are
      converted. */
  function FieldsAfter(results: seq<Option<Bib>>, k: nat, done: nat, was: Fields): Fields
    requires k < |results|
  {
    var first := FirstSlot(results, k);
    if first < done then Converted(was, first) else was
  }

  /** Every result's object holds its fields `was` after the first `done`
      results were converted. */
  ghost predicate AllAfter(results: seq<Option<Bib>>, done: nat, was: map<Bib, Fields>)
    reads Reachable(results)
  {
    forall k :: 0 <= k < |results| && results[k].Some? ==>
      results[k].value in was && results[k].value.fields == FieldsAfter(results, k, done, was[results[k].value])
  }

  /** One step of `write_bibtex`: converting position `i`, every result
      to its fields after the first `i + 1` results were converted. */
  method ConvertPosition(results: seq<Option<Bib>>, i: nat, ghost was: map<Bib, Fields>)
    requires i < |results| && results[i].Some? && AllAfter(results, i, was)
    modifies results[i].value
    ensures AllAfter(results, i + 1, was)
  {
    var bib := results[i].value;
    var first := FirstSlot(results, i);
    var c := ConvertResult(results[i], i);
    if first < i {
      ConvertedIdempotent(was[bib], first, i);
    }
    assert bib.fields == FieldsAfter(results, i, i + 1, was[bib]);
    forall k | 0 <= k < |results| && results[k].Some?
      ensures results[k].value in was
      ensures results[k].value.fields == FieldsAfter(results, k, i + 1, was[results[k].value])
    {
      if results[k] == results[i] {
        FirstSlotShared(results, k, i);
      } else {
        FirstSlotSpec(results, k);
      }
    }
  }

  /** The field dictionaries of the objects the results reach. */
  function FieldsOf(results: seq<Option<Bib>>): (m: map<Bib, Fields>)
    reads Reachable(results)
    ensures forall k :: 0 <= k < |results| && results[k].Some? ==>
      results[k].value in m && m[results[k].value] == results[k].value.fields
  {
    map b | b in Reachable(results) :: b.fields
  }

  /** The bibliography objects of the first `n` results. */
  function Entries(results: seq<Option<Bib>>, n: nat): (es: seq<Bib>)
    requires n <= Ready(results)
    ensures |es| == n && forall k :: 0 <= k < n ==> Some(es[k]) == results[k]
  {
    if n == 0 then [] else Entries(results, n - 1) + [results[n - 1].value]
  }

  /** The entries `write_bibtex` collects before writing them out: each
      result is converted with its position as index. The same object at
      two positions keeps the number of its first one (converting again
      changes nothing). A result with no "bib" key raises KeyError after
      the results before it were converted. */
  method WriteBibtex(results: seq<Option<Bib>>) returns (r: Result<seq<Bib>>)
    modifies Reachable(results)
    ensures r.Err? <==> Ready(results) < |results|
    ensures r.Err? ==> r.error == KeyError("bib")
    ensures r.Ok? ==> |r.value| == |results| && forall k :: 0 <= k < |results| ==> Some(r.value[k]) == results[k]
    ensures forall k :: 0 <= k < |results| && results[k].Some? ==>
      results[k].value.fields == FieldsAfter(results, k, Ready(results), old(results[k].value.fields))
  {
    ghost var was := FieldsOf(results);
    ghost var ready := Ready(results);
    var entries: seq<Bib> := [];
    for i := 0 to |results|
      invariant i <= ready
      invariant entries == Entries(results, i)
      invariant AllAfter(results, i, was)
    {
      if results[i].None? {
        return Err(KeyError("bib"));
      }
      entries := entries + [results[i].value];
      ConvertPosition(results, i, was);
    }
    return Ok(entries);
  }
}
