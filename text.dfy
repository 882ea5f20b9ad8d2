/** String primitives with the semantics of the Python built-ins the
    repository relies on (`str.lower`, `str.replace`, `str.split`,
    `str.strip`, `str.find`, `in`, `str.title`, `str.isupper`, `int`) and of
    the regular-expression classes `\s`, `\w` and `\d`.

    Letters, digits and case are ASCII only: non-ASCII characters are neither
    letters nor digits here and are left alone by the case mappings.
    Whitespace is the full set of characters for which Python's
    `str.isspace` holds, which is also what `\s` and `str.strip()` use. */
module Text {
  import opened Common

  // ---------------------------------------------------------------------
  // Character classes

  /** Python's `str.isspace` (and the `\s` class of `re` on `str`). */
  predicate IsSpace(c: char) {
    c == ' ' || ('\t' <= c <= '\r') || ('\U{1c}' <= c <= '\U{1f}')
    || c == '\U{85}' || c == '\U{a0}' || c == '\U{1680}'
    || ('\U{2000}' <= c <= '\U{200a}') || c == '\U{2028}' || c == '\U{2029}'
    || c == '\U{202f}' || c == '\U{205f}' || c == '\U{3000}'
  }

  predicate IsNewline(c: char) { c == '\n' }

  predicate IsUpper(c: char) { 'A' <= c <= 'Z' }

  predicate IsLower(c: char) { 'a' <= c <= 'z' }

  predicate IsLetter(c: char) { IsUpper(c) || IsLower(c) }

  /** The `\d` class. */
  predicate IsDigit(c: char) { '0' <= c <= '9' }

  /** The `\w` class. */
  predicate IsWord(c: char) { IsLetter(c) || IsDigit(c) || c == '_' }

  lemma SpaceIsNotWord(c: char)
    ensures IsSpace(c) ==> !IsWord(c)
  {
  }

  function LowerChar(c: char): char {
    if IsUpper(c) then (c as int + 32) as char else c
  }

  function UpperChar(c: char): char {
    if IsLower(c) then (c as int - 32) as char else c
  }

  // ---------------------------------------------------------------------
  // Case

  /** `str.lower()`. */
  function Lower(s: string): (r: string)
    ensures |r| == |s|
    ensures forall i :: 0 <= i < |s| ==> r[i] == LowerChar(s[i])
  {
    if s == [] then [] else [LowerChar(s[0])] + Lower(s[1..])
  }

  predicate NoUpper(s: string) {
    forall i :: 0 <= i < |s| ==> !IsUpper(s[i])
  }

  lemma LowerHasNoUpper(s: string)
    ensures NoUpper(Lower(s))
  {
  }

  lemma LowerOfNoUpper(s: string)
    requires NoUpper(s)
    ensures Lower(s) == s
  {
  }

  /** `str.isupper()`: some cased character, and none of them lower case. */
  predicate IsUpperString(s: string) {
    (exists i :: 0 <= i < |s| && IsUpper(s[i])) && (forall i :: 0 <= i < |s| ==> !IsLower(s[i]))
  }

  /** `str.title()`: a letter is upper-cased when the character before it is
      not a letter, and lower-cased otherwise. */
  function TitleCase(s: string): (r: string)
    ensures |r| == |s|
  {
    TitleCaseAfter(s, false)
  }

  function TitleCaseAfter(s: string, afterLetter: bool): (r: string)
    ensures |r| == |s|
  {
    if s == [] then []
    else [if afterLetter then LowerChar(s[0]) else UpperChar(s[0])] + TitleCaseAfter(s[1..], IsLetter(s[0]))
  }

  // ---------------------------------------------------------------------
  // Substrings

  predicate OccursAt(s: string, sub: string, i: int) {
    0 <= i && i + |sub| <= |s| && s[i..i + |sub|] == sub
  }

  /** Python's `sub in s`. */
  predicate Contains(s: string, sub: string) {
    exists i :: 0 <= i <= |s| && OccursAt(s, sub, i)
  }

  /** `s.find(sub, start)` with the search starting at `start`. */
  function FindFrom(s: string, sub: string, start: nat): (r: int)
    ensures r == -1 || (start <= r && OccursAt(s, sub, r))
    decreases |s| - start
  {
    if start + |sub| > |s| then -1
    else if s[start..start + |sub|] == sub then start
    else FindFrom(s, sub, start + 1)
  }

  /** `FindFrom` finds the leftmost occurrence from `start` on. */
  lemma {:induction false} FindFromSpec(s: string, sub: string, start: nat)
    ensures FindFrom(s, sub, start) == -1 ==> forall j :: start <= j ==> !OccursAt(s, sub, j)
    ensures FindFrom(s, sub, start) != -1 ==> forall j :: start <= j < FindFrom(s, sub, start) ==> !OccursAt(s, sub, j)
    decreases |s| - start
  {
    if start + |sub| <= |s| && s[start..start + |sub|] != sub {
      FindFromSpec(s, sub, start + 1);
    }
  }

  /** `s.find(sub)`: the leftmost position of `sub` in `s`, or -1. */
  function Find(s: string, sub: string): (r: int)
    ensures r == -1 || OccursAt(s, sub, r)
  {
    FindFrom(s, sub, 0)
  }

  lemma FindSpec(s: string, sub: string)
    ensures Find(s, sub) == -1 <==> !Contains(s, sub)
    ensures Find(s, sub) != -1 ==> forall j :: 0 <= j < Find(s, sub) ==> !OccursAt(s, sub, j)
  {
    FindFromSpec(s, sub, 0);
  }

  lemma OccursAtPrefix(s: string, sub: string)
    ensures OccursAt(s, sub, 0) <==> sub <= s
  {
  }

  lemma OccursAtTail(s: string, sub: string, i: int)
    requires s != [] && 0 <= i
    ensures OccursAt(s[1..], sub, i) <==> OccursAt(s, sub, i + 1)
  {
    if 0 <= i && i + |sub| <= |s| - 1 {
      assert s[1..][i..i + |sub|] == s[i + 1..i + 1 + |sub|];
    }
  }

  /** `s.startswith(prefix)`. */
  predicate StartsWith(s: string, prefix: string) { prefix <= s }

  // ---------------------------------------------------------------------
  // Replace, split, join

  /** `s.replace(pat, rep)`: leftmost, non-overlapping occurrences. */
  function Replace(s: string, pat: string, rep: string): (r: string)
    requires pat != []
    decreases |s|
  {
    if s == [] then []
    else if pat <= s then rep + Replace(s[|pat|..], pat, rep)
    else [s[0]] + Replace(s[1..], pat, rep)
  }

  lemma {:induction false} ReplaceChars(s: string, pat: string, rep: string, c: char)
    requires pat != []
    ensures c in Replace(s, pat, rep) ==> c in s || c in rep
    decreases |s|
  {
    if s != [] {
      if pat <= s {
        ReplaceChars(s[|pat|..], pat, rep, c);
      } else {
        ReplaceChars(s[1..], pat, rep, c);
      }
    }
  }

  /** Replacing a single character by a string without it removes every
      occurrence of that character. */
  lemma {:induction false} ReplaceRemoves(s: string, pat: string, rep: string)
    requires |pat| == 1 && pat[0] !in rep
    ensures pat[0] !in Replace(s, pat, rep)
    decreases |s|
  {
    if s != [] {
      if pat <= s {
        ReplaceRemoves(s[|pat|..], pat, rep);
      } else {
        assert s[0] != pat[0];
        ReplaceRemoves(s[1..], pat, rep);
      }
    }
  }

  /** A pattern whose first character does not occur leaves `s` alone. */
  lemma {:induction false} ReplaceAbsent(s: string, pat: string, rep: string)
    requires pat != [] && pat[0] !in s
    ensures Replace(s, pat, rep) == s
    decreases |s|
  {
    if s != [] {
      assert !(pat <= s);
      ReplaceAbsent(s[1..], pat, rep);
    }
  }

  /** Where the pattern does not start, `Replace` keeps the first character. */
  lemma ReplaceKeepsHead(s: string, pat: string, rep: string)
    requires pat != [] && s != [] && !(pat <= s)
    ensures Replace(s, pat, rep) == [s[0]] + Replace(s[1..], pat, rep)
  {
  }

  /** A prefix that holds no first character of the pattern passes through
      `Replace` unchanged. */
  lemma {:induction false} ReplaceSkip(x: string, z: string, pat: string, rep: string)
    requires pat != [] && pat[0] !in x
    ensures Replace(x + z, pat, rep) == x + Replace(z, pat, rep)
    decreases |x|
  {
    if x != [] {
      var s := x + z;
      assert s[0] == x[0] && s != [];
      assert !(pat <= s);
      assert s[1..] == x[1..] + z;
      assert Replace(s, pat, rep) == [x[0]] + Replace(x[1..] + z, pat, rep);
      ReplaceSkip(x[1..], z, pat, rep);
      assert x == [x[0]] + x[1..];
    } else {
      assert x + z == z;
    }
  }

  lemma LowerConcat(a: string, b: string)
    ensures Lower(a + b) == Lower(a) + Lower(b)
  {
  }

  /** `s.split(sep)` for a non-empty separator. */
  function Split(s: string, sep: string): (r: seq<string>)
    requires sep != []
    ensures |r| >= 1
    decreases |s|
  {
    var k := Find(s, sep);
    if k == -1 then [s] else [s[..k]] + Split(s[k + |sep|..], sep)
  }

  /** Every character of a piece occurs in the string split. */
  lemma {:induction false} SplitChars(s: string, sep: string, j: nat, c: char)
    requires sep != [] && j < |Split(s, sep)|
    ensures c in Split(s, sep)[j] ==> c in s
    decreases |s|
  {
    var k := Find(s, sep);
    if k == -1 {
      assert Split(s, sep) == [s];
    } else {
      var tail := s[k + |sep|..];
      assert Split(s, sep) == [s[..k]] + Split(tail, sep);
      if j > 0 {
        assert Split(s, sep)[j] == Split(tail, sep)[j - 1];
        SplitChars(tail, sep, j - 1, c);
        if c in tail {
          var q :| 0 <= q < |tail| && tail[q] == c;
          assert s[k + |sep| + q] == c;
        }
      } else if c in s[..k] {
        var q :| 0 <= q < k && s[..k][q] == c;
        assert s[q] == c;
      }
    }
  }

  /** `re.split('(' + re.escape(sep) + ')', s)`: like `Split`, but with
      every separator kept as a piece of its own between its neighbours. */
  function SplitKeep(s: string, sep: string): (r: seq<string>)
    requires sep != []
    ensures |r| == 2 * |Split(s, sep)| - 1
    decreases |s|
  {
    var k := Find(s, sep);
    if k == -1 then [s] else [s[..k], sep] + SplitKeep(s[k + |sep|..], sep)
  }

  /** The separators are the pieces at odd positions. */
  lemma {:induction false} SplitKeepSeparators(s: string, sep: string, k: nat)
    requires sep != [] && k < |SplitKeep(s, sep)| && k % 2 == 1
    ensures SplitKeep(s, sep)[k] == sep
    decreases |s|
  {
    var i := Find(s, sep);
    assert i != -1;
    var rest := SplitKeep(s[i + |sep|..], sep);
    assert SplitKeep(s, sep) == [s[..i], sep] + rest;
    if k > 1 {
      assert (k - 2) % 2 == 1;
      SplitKeepSeparators(s[i + |sep|..], sep, k - 2);
      assert SplitKeep(s, sep)[k] == rest[k - 2];
    }
  }

  /** `sep.join(parts)`. */
  function Join(parts: seq<string>, sep: string): string {
    if parts == [] then ""
    else if |parts| == 1 then parts[0]
    else parts[0] + sep + Join(parts[1..], sep)
  }

  // ---------------------------------------------------------------------
  // Runs of a character class

  /** `s` without its leading run of characters satisfying `p`. */
  function SkipRun(s: string, p: char -> bool): (r: string)
    ensures |r| <= |s| && r == s[|s| - |r|..]
    ensures r == [] || !p(r[0])
    ensures forall i :: 0 <= i < |s| - |r| ==> p(s[i])
  {
    if s != [] && p(s[0]) then SkipRun(s[1..], p) else s
  }

  /** `re.sub(P + '+', c, s)` where `P` is the class `p`: every maximal run of
      characters satisfying `p` becomes the single character `c`. */
  function CollapseRuns(s: string, p: char -> bool, c: char): (r: string)
    decreases |s|
  {
    if s == [] then []
    else if p(s[0]) then [c] + CollapseRuns(SkipRun(s[1..], p), p, c)
    else [s[0]] + CollapseRuns(s[1..], p, c)
  }

  /** No two neighbouring characters satisfy `p`, and `c` is the only
      character satisfying it that occurs. */
  predicate SingleRuns(s: string, p: char -> bool, c: char) {
    (forall i :: 0 <= i < |s| ==> p(s[i]) ==> s[i] == c)
    && (forall i :: 0 <= i < |s| - 1 ==> !(p(s[i]) && p(s[i + 1])))
  }

  lemma {:induction false} CollapseRunsShape(s: string, p: char -> bool, c: char)
    requires p(c)
    ensures var r := CollapseRuns(s, p, c);
      && (r == [] <==> s == [])
      && (r != [] ==> (p(r[0]) <==> p(s[0])))
      && |r| <= |s|
      && SingleRuns(r, p, c)
    decreases |s|
  {
    if s != [] {
      if p(s[0]) {
        var t := SkipRun(s[1..], p);
        CollapseRunsShape(t, p, c);
      } else {
        CollapseRunsShape(s[1..], p, c);
      }
    }
  }

  lemma {:induction false} CollapseRunsChars(s: string, p: char -> bool, c: char, x: char)
    ensures x in CollapseRuns(s, p, c) ==> x in s || x == c
    decreases |s|
  {
    if s != [] {
      if p(s[0]) {
        var t := SkipRun(s[1..], p);
        CollapseRunsChars(t, p, c, x);
        assert x in t ==> x in s by {
          if x in t {
            var j :| 0 <= j < |t| && t[j] == x;
            assert s[|s| - |t| + j] == x;
          }
        }
      } else {
        CollapseRunsChars(s[1..], p, c, x);
      }
    }
  }

  /** Collapsing changes nothing once every run is already a single `c`. */
  lemma {:induction false} CollapseRunsOfSingle(s: string, p: char -> bool, c: char)
    requires SingleRuns(s, p, c)
    ensures CollapseRuns(s, p, c) == s
    decreases |s|
  {
    if s != [] {
      assert SingleRuns(s[1..], p, c);
      if p(s[0]) {
        assert s[1..] == [] || !p(s[1]);
        assert SkipRun(s[1..], p) == s[1..];
      }
      CollapseRunsOfSingle(s[1..], p, c);
    }
  }

  lemma CollapseRunsIdempotent(s: string, p: char -> bool, c: char)
    requires p(c)
    ensures CollapseRuns(CollapseRuns(s, p, c), p, c) == CollapseRuns(s, p, c)
  {
    CollapseRunsShape(s, p, c);
    CollapseRunsOfSingle(CollapseRuns(s, p, c), p, c);
  }

  /** The characters outside the class, in order. */
  function Outside(s: string, p: char -> bool): string {
    if s == [] then [] else (if p(s[0]) then [] else [s[0]]) + Outside(s[1..], p)
  }

  lemma {:induction false} OutsideOfRun(s: string, p: char -> bool)
    ensures Outside(SkipRun(s, p), p) == Outside(s, p)
    decreases |s|
  {
    if s != [] && p(s[0]) {
      OutsideOfRun(s[1..], p);
    }
  }

  /** Collapsing keeps every character outside the class, in order. */
  lemma {:induction false} CollapseRunsKeepsOutside(s: string, p: char -> bool, c: char)
    requires p(c)
    ensures Outside(CollapseRuns(s, p, c), p) == Outside(s, p)
    decreases |s|
  {
    if s != [] {
      if p(s[0]) {
        var t := SkipRun(s[1..], p);
        CollapseRunsKeepsOutside(t, p, c);
        OutsideOfRun(s[1..], p);
        assert CollapseRuns(s, p, c) == [c] + CollapseRuns(t, p, c);
        assert Outside([c] + CollapseRuns(t, p, c), p) == Outside(CollapseRuns(t, p, c), p) by {
          assert ([c] + CollapseRuns(t, p, c))[1..] == CollapseRuns(t, p, c);
        }
      } else {
        CollapseRunsKeepsOutside(s[1..], p, c);
        assert ([s[0]] + CollapseRuns(s[1..], p, c))[1..] == CollapseRuns(s[1..], p, c);
      }
    }
  }

  /** `re.sub(r'\s+', ' ', s)`. */
  function CollapseSpaces(s: string): string {
    CollapseRuns(s, IsSpace, ' ')
  }

  // ---------------------------------------------------------------------
  // Strip

  function StripLeft(s: string): (r: string)
    ensures |r| <= |s| && r == s[|s| - |r|..]
    ensures r == [] || !IsSpace(r[0])
  {
    SkipRun(s, IsSpace)
  }

  function StripRight(s: string): (r: string)
    ensures |r| <= |s| && r == s[..|r|]
    ensures r == [] || !IsSpace(r[|r| - 1])
    ensures forall i :: |r| <= i < |s| ==> IsSpace(s[i])
  {
    if s != [] && IsSpace(s[|s| - 1]) then StripRight(s[..|s| - 1]) else s
  }

  /** `s.strip()`. */
  function Strip(s: string): (r: string)
    ensures |r| <= |s|
    ensures r == [] || (!IsSpace(r[0]) && !IsSpace(r[|r| - 1]))
    ensures |s| - |StripLeft(s)| + |r| <= |s|
    ensures r == s[|s| - |StripLeft(s)|..|s| - |StripLeft(s)| + |r|]
  {
    var l := StripLeft(s);
    var r := StripRight(l);
    assert r == s[|s| - |l|..|s| - |l| + |r|];
    r
  }

  lemma StripOfStripped(s: string)
    requires s == [] || (!IsSpace(s[0]) && !IsSpace(s[|s| - 1]))
    ensures Strip(s) == s
  {
  }

  /** One leading blank is stripped from an otherwise stripped string. */
  lemma StripLeadingBlank(w: string)
    requires w != [] && !IsSpace(w[0]) && !IsSpace(w[|w| - 1])
    ensures Strip(" " + w) == w
  {
    var s := " " + w;
    assert s[1..] == w;
    assert StripLeft(s) == w;
    assert StripRight(w) == w;
  }

  /** The first element of `s.split()` (splitting on whitespace), if any. */
  function FirstWord(s: string): Option<string> {
    var t := StripLeft(s);
    if t == [] then None else Some(TakeNonSpace(t))
  }

  /** The first word is non-empty and blank-free, and there is none exactly
      when the string is all blanks. */
  lemma FirstWordSpec(s: string)
    ensures FirstWord(s).Some? ==> var w := FirstWord(s).value;
      w != [] && forall i :: 0 <= i < |w| ==> !IsSpace(w[i])
    ensures FirstWord(s).None? <==> forall i :: 0 <= i < |s| ==> IsSpace(s[i])
  {
    var t := StripLeft(s);
    if t != [] {
      TakeNonSpaceSpec(t);
    }
  }

  function TakeNonSpace(s: string): (r: string)
    ensures r <= s
  {
    if s == [] || IsSpace(s[0]) then [] else [s[0]] + TakeNonSpace(s[1..])
  }

  lemma {:induction false} TakeNonSpaceSpec(s: string)
    ensures forall i :: 0 <= i < |TakeNonSpace(s)| ==> !IsSpace(TakeNonSpace(s)[i])
    ensures |TakeNonSpace(s)| < |s| ==> IsSpace(s[|TakeNonSpace(s)|])
    ensures s != [] && !IsSpace(s[0]) ==> TakeNonSpace(s) != []
  {
    if s != [] && !IsSpace(s[0]) {
      TakeNonSpaceSpec(s[1..]);
    }
  }

  // ---------------------------------------------------------------------
  // Regular-expression building blocks

  /** The length of the longest run of characters satisfying `p` that
      starts at `i` (what a greedy `P*` consumes there). */
  function RunFrom(s: string, i: nat, p: char -> bool): (n: nat)
    requires i <= |s|
    ensures i + n <= |s|
    decreases |s| - i
  {
    if i < |s| && p(s[i]) then 1 + RunFrom(s, i + 1, p) else 0
  }

  /** The run is all `p`, and it is maximal. */
  lemma {:induction false} RunFromSpec(s: string, i: nat, p: char -> bool)
    requires i <= |s|
    ensures Every(s, i, i + RunFrom(s, i, p), p)
    ensures i + RunFrom(s, i, p) == |s| || !p(s[i + RunFrom(s, i, p)])
    decreases |s| - i
  {
    if i < |s| && p(s[i]) {
      RunFromSpec(s, i + 1, p);
    }
  }

  /** Every character of `s[i..j]` satisfies `p`. */
  predicate Every(s: string, i: nat, j: nat, p: char -> bool)
    requires i <= j <= |s|
  {
    forall k :: i <= k < j ==> p(s[k])
  }

  lemma EverySlice(s: string, i: nat, j: nat, t: string, p: char -> bool)
    requires i <= j <= |s| && s[i..j] == t
    requires forall k :: 0 <= k < |t| ==> p(t[k])
    ensures Every(s, i, j, p)
  {
    forall k | i <= k < j ensures p(s[k]) {
      assert s[k] == t[k - i];
    }
  }

  /** A run that is all `p` and stops where `p` fails ends exactly where
      `RunFrom` says. */
  lemma {:induction false} RunFromEnd(s: string, i: nat, j: nat, p: char -> bool)
    requires i <= j <= |s| && Every(s, i, j, p)
    requires j == |s| || !p(s[j])
    ensures i + RunFrom(s, i, p) == j
    decreases j - i
  {
    if i < j {
      RunFromEnd(s, i + 1, j, p);
    }
  }

  /** `re.search`: the leftmost position from `from` on where `at` finds a
      match, with what it found there. */
  function SearchFrom<T>(s: string, from: nat, at: (string, nat) -> Option<T>): (r: Option<(nat, T)>)
    ensures r.Some? ==> from <= r.value.0 <= |s| && at(s, r.value.0) == Some(r.value.1)
    ensures r.Some? ==> forall j :: from <= j < r.value.0 ==> at(s, j).None?
    ensures r.None? ==> forall j :: from <= j <= |s| ==> at(s, j).None?
    decreases |s| + 1 - from
  {
    if from > |s| then None
    else match at(s, from)
      case Some(v) => Some((from, v))
      case None => SearchFrom(s, from + 1, at)
  }

  // ---------------------------------------------------------------------
  // Numbers

  function DigitChar(d: nat): char
    requires d < 10
  {
    ('0' as int + d) as char
  }

  /** `str(n)` for a natural number. */
  function NatToString(n: nat): (r: string)
    ensures r != [] && forall i :: 0 <= i < |r| ==> IsDigit(r[i])
  {
    if n < 10 then [DigitChar(n)] else NatToString(n / 10) + [DigitChar(n % 10)]
  }

  /** `str(n)`. */
  function IntToString(n: int): string {
    if n < 0 then "-" + NatToString(-n) else NatToString(n)
  }

  function DigitValue(c: char): nat
    requires IsDigit(c)
  {
    c as int - '0' as int
  }

  /** The value of a run of decimal digits and underscores (underscores are
      ignored). */
  function DigitsValue(s: string): nat
    requires forall i :: 0 <= i < |s| ==> IsDigit(s[i]) || s[i] == '_'
  {
    if s == [] then 0
    else if s[|s| - 1] == '_' then DigitsValue(s[..|s| - 1])
    else 10 * DigitsValue(s[..|s| - 1]) + DigitValue(s[|s| - 1])
  }

  /** Python's integer literal body: digits, with single underscores
      allowed between two digits. */
  predicate DigitGroup(s: string) {
    && s != [] && IsDigit(s[0]) && IsDigit(s[|s| - 1])
    && (forall i :: 0 <= i < |s| ==> IsDigit(s[i]) || s[i] == '_')
    && (forall i :: 0 <= i < |s| - 1 ==> !(s[i] == '_' && s[i + 1] == '_'))
  }

  /** `int(s)` for a string: surrounding whitespace, an optional sign, and a
      digit group; anything else has no value (Python raises ValueError). */
  function ParseInt(s: string): Option<int> {
    var t := Strip(s);
    var neg := t != [] && t[0] == '-';
    var body := if t != [] && (t[0] == '-' || t[0] == '+') then t[1..] else t;
    if DigitGroup(body) then
      Some(if neg then -(DigitsValue(body) as int) else DigitsValue(body) as int)
    else None
  }
}
