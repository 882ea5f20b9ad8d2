/** Helpers over the text extracted from a PDF: locating a section header,
    collapsing blank lines, and joining words split by a line-end hyphen. */
module PdfExtract {
  import opened Common
  import opened Text

  // ---------------------------------------------------------------------
  // findHeaders

  /** The first index from `k` on whose string occurs in `text`. */
  function FirstHeaderFrom(strings: seq<string>, text: string, k: nat): (r: Option<nat>)
    requires k <= |strings|
    ensures r.Some? ==> k <= r.value < |strings| && Contains(text, strings[r.value])
    ensures forall j :: k <= j < |strings| && (r.None? || j < r.value) ==> !Contains(text, strings[j])
    decreases |strings| - k
  {
    if k == |strings| then None
    else if Contains(text, strings[k]) then Some(k)
    else FirstHeaderFrom(strings, text, k + 1)
  }

  /** `findHeaders(strings, text, default)` as a value: where the first
      string, in list order, that occurs in the text starts; `default` when
      none does. */
  function Headers(strings: seq<string>, text: string, default: int): int {
    match FirstHeaderFrom(strings, text, 0)
    case Some(k) => Find(text, strings[k])
    case None => default
  }

  /** `findHeaders`: tries the strings in order and stops at the first that
      `text.find` locates. */
  method FindHeaders(strings: seq<string>, text: string, default: int) returns (start: int)
    ensures start == Headers(strings, text, default)
  {
    start := -1;
    var i := 0;
    while i < |strings|
      invariant i <= |strings| && start == -1
      invariant forall k :: 0 <= k < i ==> !Contains(text, strings[k])
    {
      start := Find(text, strings[i]);
      FindSpec(text, strings[i]);
      if start != -1 {
        break;
      }
      i := i + 1;
    }
    if start == -1 {
      start := default;
    }
  }

  /** When the string at `k` is the first in the list that occurs, the result
      is its leftmost position. */
  lemma HeadersFound(strings: seq<string>, text: string, default: int, k: nat)
    requires k < |strings| && Contains(text, strings[k])
    requires forall j :: 0 <= j < k ==> !Contains(text, strings[j])
    ensures OccursAt(text, strings[k], Headers(strings, text, default))
    ensures forall p :: 0 <= p < Headers(strings, text, default) ==> !OccursAt(text, strings[k], p)
  {
    FindSpec(text, strings[k]);
  }

  /** When no string occurs (the list may be empty), the result is the
      default. */
  lemma HeadersMissing(strings: seq<string>, text: string, default: int)
    requires forall j :: 0 <= j < |strings| ==> !Contains(text, strings[j])
    ensures Headers(strings, text, default) == default
  {
  }

  /** List order decides, not position: "b" comes first in the list, so its
      position 1 is returned although "a" starts at 0. */
  lemma HeadersFollowListOrder()
    ensures OccursAt("ab", "a", 0)
    ensures Headers(["b", "a"], "ab", 0) == 1
  {
    assert OccursAt("ab", "b", 1);
    assert "ab"[0..1] == "a";
    FindSpec("ab", "b");
  }

  // ---------------------------------------------------------------------
  // cleanUpTikaText

  /** `cleanUpTikaText(text)`: `re.sub('\n+', '\n', text)`. */
  function CleanUpTikaText(text: string): string {
    CollapseRuns(text, IsNewline, '\n')
  }

  /** No blank line is left, and every other character stays, in order. */
  lemma CleanUpTikaTextSpec(text: string)
    ensures var r := CleanUpTikaText(text);
      && (forall i :: 0 <= i < |r| - 1 ==> !(r[i] == '\n' && r[i + 1] == '\n'))
      && Outside(r, IsNewline) == Outside(text, IsNewline)
      && (r == [] <==> text == [])
  {
    CollapseRunsShape(text, IsNewline, '\n');
    CollapseRunsKeepsOutside(text, IsNewline, '\n');
  }

  lemma CleanUpTikaTextIdempotent(text: string)
    ensures CleanUpTikaText(CleanUpTikaText(text)) == CleanUpTikaText(text)
  {
    CollapseRunsIdempotent(text, IsNewline, '\n');
  }

  // ---------------------------------------------------------------------
  // dehyphenate

  /** The pattern `(\w+)-\n(\w+)` tried at position `i`: both words and the
      position after the match. '-' is no word character, so the first
      group must be the whole word run from `i`; the second is greedy. */
  function HyphenAt(s: string, i: nat): (r: Option<(string, string, nat)>)
    ensures r.Some? ==> i < r.value.2 <= |s|
  {
    if i < |s| then
      var n := RunFrom(s, i, IsWord);
      var j := i + n;
      if n > 0 && j + 2 <= |s| && s[j] == '-' && s[j + 1] == '\n' then
        var m := RunFrom(s, j + 2, IsWord);
        if m > 0 then Some((s[i..j], s[j + 2..j + 2 + m], j + 2 + m)) else None
      else None
    else None
  }

  /** The replacement `rep_func` returns: the joined word when either
      dictionary accepts it, otherwise the two halves around a hyphen. */
  function Rejoined(w1: string, w2: string, inDictionary: string -> bool): string {
    if inDictionary(w1 + w2) then w1 + w2 else w1 + "-" + w2
  }

  /** `re.sub('(\w+)-\n(\w+)', rep_func, text)` from position `from` on:
      each match is replaced and the scan resumes after it. */
  function DehyphenateFrom(s: string, from: nat, inDictionary: string -> bool): string
    decreases |s| - from
  {
    if from >= |s| then []
    else match HyphenAt(s, from)
      case Some((w1, w2, e)) => Rejoined(w1, w2, inDictionary) + DehyphenateFrom(s, e, inDictionary)
      case None => [s[from]] + DehyphenateFrom(s, from + 1, inDictionary)
  }

  /** `dehyphenate(text)`; `inDictionary` is the check against the US and UK
      English dictionaries. */
  function Dehyphenate(text: string, inDictionary: string -> bool): string {
    DehyphenateFrom(text, 0, inDictionary)
  }

  /** A word character, a hyphen, a newline and a word character start at
      `i`. */
  predicate BreakAt(s: string, i: nat) {
    i + 3 < |s| && IsWord(s[i]) && s[i + 1] == '-' && s[i + 2] == '\n' && IsWord(s[i + 3])
  }

  /** A match needs a hyphenated line break. */
  lemma HyphenAtBreak(s: string, i: nat)
    requires HyphenAt(s, i).Some?
    ensures BreakAt(s, i + |HyphenAt(s, i).value.0| - 1)
  {
    var n := RunFrom(s, i, IsWord);
    RunFromSpec(s, i, IsWord);
    RunFromSpec(s, i + n + 2, IsWord);
    assert HyphenAt(s, i).value.0 == s[i..i + n];
  }

  lemma {:induction false} DehyphenateFromUnchanged(s: string, from: nat, inDictionary: string -> bool)
    requires from <= |s|
    requires forall i: nat :: !BreakAt(s, i)
    ensures DehyphenateFrom(s, from, inDictionary) == s[from..]
    decreases |s| - from
  {
    if from < |s| {
      if HyphenAt(s, from).Some? {
        HyphenAtBreak(s, from);
        assert false;
      }
      DehyphenateFromUnchanged(s, from + 1, inDictionary);
    }
  }

  /** Text without a hyphenated line break between word characters comes
      back unchanged. */
  lemma DehyphenateUnchanged(text: string, inDictionary: string -> bool)
    requires forall i: nat :: !BreakAt(text, i)
    ensures Dehyphenate(text, inDictionary) == text
  {
    DehyphenateFromUnchanged(text, 0, inDictionary);
  }

  /** One word broken across a line joins up, without the newline: into one
      word when the dictionary accepts it, around a hyphen otherwise. */
  lemma DehyphenateJoins(w1: string, w2: string, inDictionary: string -> bool)
    requires w1 != [] && w2 != []
    requires forall k :: 0 <= k < |w1| ==> IsWord(w1[k])
    requires forall k :: 0 <= k < |w2| ==> IsWord(w2[k])
    ensures inDictionary(w1 + w2) ==> Dehyphenate(w1 + "-\n" + w2, inDictionary) == w1 + w2
    ensures !inDictionary(w1 + w2) ==> Dehyphenate(w1 + "-\n" + w2, inDictionary) == w1 + "-" + w2
  {
    var s := w1 + "-\n" + w2;
    var j := |w1|;
    assert s[..j] == w1 && s[j] == '-' && s[j + 1] == '\n' && s[j + 2..] == w2;
    EverySlice(s, 0, j, w1, IsWord);
    RunFromEnd(s, 0, j, IsWord);
    EverySlice(s, j + 2, |s|, w2, IsWord);
    RunFromEnd(s, j + 2, |s|, IsWord);
    assert HyphenAt(s, 0) == Some((w1, w2, |s|));
    assert Dehyphenate(s, inDictionary) == Rejoined(w1, w2, inDictionary) + DehyphenateFrom(s, |s|, inDictionary);
  }
}
