/** Reasons for exclusion given by reviewers: spellings are normalised to
    a canonical form and the main reason of a paper is the one ranked
    highest in a fixed precedence list. */
module Reasons {
  import opened Common
  import opened Text

  /** The canonical reasons, the most important first. */
  const ExclusionPrecedence := [
    "foreign language",
    "is review",
    "uses images",
    "not radiology",
    "not nlp",
    "wrong publication type",
    "not peer reviewed",
    "cannot find fulltext",
    "conference",
    "too short"]

  /** `fix_reasons(r)`: four aliases matched exactly, then underscores
      turned into spaces, and only otherwise surrounding whitespace
      stripped. */
  function FixReasons(r: string): string {
    if r == "not radiology report" then "not radiology"
    else if r == "not radiology reports" then "not radiology"
    else if r == "review" then "is review"
    else if r == "with_images" then "uses images"
    else if '_' in r then Replace(r, "_", " ")
    else Strip(r)
  }

  /** An aliased reason is mapped to its canonical form; any other reason
      with an underscore loses every underscore and keeps its surrounding
      whitespace; the rest are stripped. */
  lemma FixReasonsSpec(r: string)
    ensures r in {"not radiology report", "not radiology reports"} ==> FixReasons(r) == "not radiology"
    ensures r == "review" ==> FixReasons(r) == "is review"
    ensures r == "with_images" ==> FixReasons(r) == "uses images"
    ensures r !in {"not radiology report", "not radiology reports", "review", "with_images"} ==>
      && ('_' in r ==> FixReasons(r) == Replace(r, "_", " ") && '_' !in FixReasons(r))
      && ('_' !in r ==> FixReasons(r) == Strip(r))
  {
    if r !in {"not radiology report", "not radiology reports", "review", "with_images"} && '_' in r {
      ReplaceRemoves(r, "_", " ");
    }
  }

  /** A reason that is no alias and has no underscore is its own middle
      part, with only whitespace cut from either end. */
  lemma FixReasonsStripped(r: string)
    ensures r !in {"not radiology report", "not radiology reports", "review", "with_images"} && '_' !in r ==>
      var s, k := FixReasons(r), |r| - |StripLeft(r)|;
      && (s == [] || (!IsSpace(s[0]) && !IsSpace(s[|s| - 1])))
      && k + |s| <= |r| && s == r[k..k + |s|]
      && (forall i :: 0 <= i < k ==> IsSpace(r[i]))
      && (forall i :: k + |s| <= i < |r| ==> IsSpace(r[i]))
  {
    if r !in {"not radiology report", "not radiology reports", "review", "with_images"} && '_' !in r {
      assert FixReasons(r) == Strip(r);
      StripDropsBlanks(r);
    }
  }

  /** `strip` removes only whitespace, from both ends. */
  lemma StripDropsBlanks(r: string)
    ensures var s, k := Strip(r), |r| - |StripLeft(r)|;
      && k + |s| <= |r| && s == r[k..k + |s|]
      && (forall i :: 0 <= i < k ==> IsSpace(r[i]))
      && (forall i :: k + |s| <= i < |r| ==> IsSpace(r[i]))
  {
    var l := StripLeft(r);
    var k := |r| - |l|;
    assert l == r[k..];
    assert Strip(r) == StripRight(l);
    forall i | k + |Strip(r)| <= i < |r|
      ensures IsSpace(r[i])
    {
      assert r[i] == l[i - k];
    }
  }

  /** The aliases are matched before stripping: a padded alias is only
      stripped, not mapped. */
  lemma PaddedAliasIsOnlyStripped(r: string)
    requires r == " " + "review"
    ensures FixReasons(r) == "review"
  {
    assert |r| == 7 && r[0] == ' ';
    assert '_' !in r;
    assert !IsSpace('r') && !IsSpace('w');
    StripLeadingBlank("review");
  }

  /** The reasons after fixing, as a set. */
  function Fixed(reasons: seq<string>): set<string> {
    set r | r in reasons :: FixReasons(r)
  }

  /** The first entry of `order` from position `i` on that is present. */
  function FirstListed(order: seq<string>, present: set<string>, i: nat): Option<string>
    requires i <= |order|
    decreases |order| - i
  {
    if i == |order| then None
    else if order[i] in present then Some(order[i])
    else FirstListed(order, present, i + 1)
  }

  /** `get_main_reason(reasons)`. */
  function GetMainReason(reasons: seq<string>): Option<string> {
    FirstListed(ExclusionPrecedence, Fixed(reasons), 0)
  }

  /** Nothing is found exactly when no entry from `i` on is present. */
  lemma {:induction false} FirstListedNone(order: seq<string>, present: set<string>, i: nat)
    requires i <= |order|
    ensures FirstListed(order, present, i).None? <==> forall j :: i <= j < |order| ==> order[j] !in present
    decreases |order| - i
  {
    if i < |order| && order[i] !in present {
      FirstListedNone(order, present, i + 1);
    }
  }

  /** What is found is a present entry with no present entry before it. */
  lemma {:induction false} FirstListedSome(order: seq<string>, present: set<string>, i: nat)
    requires i <= |order|
    ensures FirstListed(order, present, i).Some? ==>
      exists j :: i <= j < |order| && order[j] == FirstListed(order, present, i).value && order[j] in present
        && forall m :: i <= m < j ==> order[m] !in present
    decreases |order| - i
  {
    if i < |order| && order[i] !in present {
      FirstListedSome(order, present, i + 1);
    }
  }

  /** The main reason is None exactly when the fixed reasons hold no entry
      of the precedence list. */
  lemma GetMainReasonNone(reasons: seq<string>)
    ensures GetMainReason(reasons).None? <==>
      forall j :: 0 <= j < |ExclusionPrecedence| ==> ExclusionPrecedence[j] !in Fixed(reasons)
  {
    FirstListedNone(ExclusionPrecedence, Fixed(reasons), 0);
  }

  /** Otherwise it is the earliest entry of the precedence list that some
      reason fixes to. */
  lemma GetMainReasonSome(reasons: seq<string>)
    ensures GetMainReason(reasons).Some? ==>
      exists j :: 0 <= j < |ExclusionPrecedence| && ExclusionPrecedence[j] == GetMainReason(reasons).value
        && (exists r :: r in reasons && FixReasons(r) == ExclusionPrecedence[j])
        && forall m :: 0 <= m < j ==> ExclusionPrecedence[m] !in Fixed(reasons)
  {
    FirstListedSome(ExclusionPrecedence, Fixed(reasons), 0);
  }

  /** The main reason is always a canonical reason or None. */
  lemma GetMainReasonIsCanonical(reasons: seq<string>)
    ensures GetMainReason(reasons).Some? ==> GetMainReason(reasons).value in ExclusionPrecedence
  {
    GetMainReasonSome(reasons);
  }

  /** Only which reasons occur matters, not their order or repetition. */
  lemma GetMainReasonIgnoresOrder(a: seq<string>, b: seq<string>)
    requires forall r :: r in a <==> r in b
    ensures GetMainReason(a) == GetMainReason(b)
  {
    assert Fixed(a) == Fixed(b);
  }

  /** A present reason of rank `i` is the main reason unless one ranked
      higher is present. */
  lemma HigherRankWins(reasons: seq<string>, i: nat)
    requires i < |ExclusionPrecedence| && ExclusionPrecedence[i] in Fixed(reasons)
    ensures exists k :: 0 <= k <= i && GetMainReason(reasons) == Some(ExclusionPrecedence[k])
  {
    GetMainReasonNone(reasons);
    GetMainReasonSome(reasons);
  }

  /** A padded alias counts for no reason at all. */
  lemma PaddedReviewIsNoReason(r: string)
    requires r == " " + "review"
    ensures GetMainReason([r]) == None
  {
    PaddedAliasIsOnlyStripped(r);
    FixedOne(r);
    ReviewUnlisted();
    UnlistedIsNoReason([r]);
  }

  lemma FixedOne(r: string)
    ensures Fixed([r]) == {FixReasons(r)}
  {
  }

  lemma ReviewUnlisted()
    ensures "review" !in ExclusionPrecedence
  {
    assert forall j :: 0 <= j < |ExclusionPrecedence| ==> |ExclusionPrecedence[j]| != |"review"|;
  }

  /** Reasons that fix to nothing in the precedence list give no main
      reason. */
  lemma UnlistedIsNoReason(reasons: seq<string>)
    requires forall x :: x in Fixed(reasons) ==> x !in ExclusionPrecedence
    ensures GetMainReason(reasons) == None
  {
    FirstListedNone(ExclusionPrecedence, Fixed(reasons), 0);
  }
}
