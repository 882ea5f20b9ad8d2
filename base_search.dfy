/** One search hit: the entry a search engine returned, where it came from
    and what else it reported, plus the cached paper it is later matched
    with. */
module BaseSearch {
  import opened Common
  import opened Text
  import Data

  class SearchResult {
    const index: int
    const bib: Fields
    const source: string
    const extraData: map<string, Value>
    /** Set when the result is matched with a paper of the cache. */
    var paper: Option<Data.Paper>

    constructor (index: int, bib: Fields, source: string, extraData: map<string, Value>)
      ensures this.index == index && this.bib == bib
      ensures this.source == source && this.extraData == extraData
      ensures paper.None?
    {
      this.index := index;
      this.bib := bib;
      this.source := source;
      this.extraData := extraData;
      paper := None;
    }

    /** `result[key]`: the auxiliary data wins whenever it holds the key,
        even with a falsy value; then the field; then None. */
    function Item(key: string): (v: Value)
      ensures key in extraData ==> v == extraData[key]
      ensures key !in extraData && key in bib ==> v == VStr(bib[key])
      ensures key !in extraData && key !in bib ==> v == VNone
    {
      if key in extraData then extraData[key]
      else if key in bib then VStr(bib[key])
      else VNone
    }

    /** `repr(result)`, given the text `str(bib)` of the field dictionary:
        it opens with the index and closes with that text on a line of its
        own; a result without title, author and year shows them as "". */
    function Repr(bibText: string): (r: string)
      ensures var head := "<#" + IntToString(index) + ": ";
        |head| <= |r| && r[..|head|] == head
      ensures |bibText| + 4 <= |r| && r[|r| - |bibText| - 4..] == "> \n " + bibText
      ensures "title" !in bib && "author" !in bib && "year" !in bib ==>
        r == "<#" + IntToString(index) + ": " + "" + " - " + "" + " - " + "" + "> \n " + bibText
    {
      ReprOfHead(index, bib, bibText);
      ReprOf(index, bib, bibText)
    }
  }

  /** The text of `repr`: the index, then title, author and year (each ""
      when absent), then the dictionary's own text on a second line. */
  function ReprOf(index: int, bib: Fields, bibText: string): (r: string)
    ensures |r| >= |bibText| + 6 && r[..2] == "<#"
    ensures r[|r| - |bibText| - 4..] == "> \n " + bibText
  {
    var head := "<#" + IntToString(index) + ": ";
    var fields := GetOr(bib, "title", "") + " - " + GetOr(bib, "author", "") + " - " + GetOr(bib, "year", "");
    var tail := "> \n " + bibText;
    head + fields + tail
  }

  lemma ReprOfHead(index: int, bib: Fields, bibText: string)
    ensures var head := "<#" + IntToString(index) + ": ";
      |head| <= |ReprOf(index, bib, bibText)| && ReprOf(index, bib, bibText)[..|head|] == head
  {
    var head := "<#" + IntToString(index) + ": ";
    var fields := GetOr(bib, "title", "") + " - " + GetOr(bib, "author", "") + " - " + GetOr(bib, "year", "");
    assert (head + fields)[..|head|] == head;
  }

  /** An absent title, author or year shows exactly as an empty one. */
  lemma ReprMissingIsEmpty(index: int, bib: Fields, key: string, bibText: string)
    requires key in {"title", "author", "year"} && key !in bib
    ensures ReprOf(index, bib, bibText) == ReprOf(index, bib[key := ""], bibText)
  {
    assert GetOr(bib, key, "") == "" == GetOr(bib[key := ""], key, "");
  }
}
