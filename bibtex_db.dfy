/** The author-string parser, the author-list serialiser and the defaults
    that make a field dictionary a writable BibTeX entry (`db/bibtex.py`). */
module BibtexDb {
  import opened Common
  import opened Text

  // ---------------------------------------------------------------------
  // The pattern `([A-Z]+)\s+(\w+)`

  /** The pattern matches `s[i..c]`, its capitals ending at `a` and its
      blanks at `b`. */
  predicate InitialsMatch(s: string, i: nat, a: nat, b: nat, c: nat) {
    && i < a < b < c <= |s|
    && Every(s, i, a, IsUpper) && Every(s, a, b, IsSpace) && Every(s, b, c, IsWord)
  }

  /** In any match at `i` the capitals and the blanks are maximal runs, so a
      greedy match needs no backtracking. */
  lemma InitialsParts(s: string, i: nat, a: nat, b: nat, c: nat)
    requires InitialsMatch(s, i, a, b, c)
    ensures a == i + RunFrom(s, i, IsUpper)
    ensures b == a + RunFrom(s, a, IsSpace)
  {
    RunFromEnd(s, i, a, IsUpper);
    SpaceIsNotWord(s[b]);
    RunFromEnd(s, a, b, IsSpace);
  }

  /** The match the pattern makes at `i`, as the ends of its three parts. */
  function InitialsAt(s: string, i: nat): (r: Option<(nat, nat, nat)>)
    ensures r.Some? ==> i < r.value.0 < r.value.1 < r.value.2 <= |s|
  {
    if i >= |s| || !IsUpper(s[i]) then None
    else
      var a := i + RunFrom(s, i, IsUpper);
      var b := a + RunFrom(s, a, IsSpace);
      if b == a || b == |s| || !IsWord(s[b]) then None
      else Some((a, b, b + RunFrom(s, b, IsWord)))
  }

  /** What `InitialsAt` finds is a match, with the word taken greedily. */
  lemma InitialsAtSound(s: string, i: nat)
    ensures InitialsAt(s, i).Some? ==> var v := InitialsAt(s, i).value;
      InitialsMatch(s, i, v.0, v.1, v.2) && (v.2 == |s| || !IsWord(s[v.2]))
  {
    var r := InitialsAt(s, i);
    if r.Some? {
      var a := i + RunFrom(s, i, IsUpper);
      var b := a + RunFrom(s, a, IsSpace);
      var c := b + RunFrom(s, b, IsWord);
      assert r.value == (a, b, c);
      RunFromSpec(s, i, IsUpper);
      RunFromSpec(s, a, IsSpace);
      RunFromSpec(s, b, IsWord);
      assert InitialsMatch(s, i, a, b, c);
    }
  }

  /** Wherever the pattern matches, `InitialsAt` finds that match. */
  lemma InitialsAtComplete(s: string, i: nat, a: nat, b: nat, c: nat)
    requires InitialsMatch(s, i, a, b, c)
    ensures InitialsAt(s, i).Some? && InitialsAt(s, i).value.0 == a && InitialsAt(s, i).value.1 == b
  {
    InitialsParts(s, i, a, b, c);
    assert IsUpper(s[i]) && IsWord(s[b]);
  }

  // ---------------------------------------------------------------------
  // The pattern `([A-Z]\w+)\s*,\s*([A-Z]\w*)`

  /** The pattern matches `s[i..d]`: the surname `s[i..a]`, blanks up to
      the comma at `b`, blanks up to `c`, and the given name `s[c..d]`. */
  predicate SurnameMatch(s: string, i: nat, a: nat, b: nat, c: nat, d: nat) {
    && i + 2 <= a <= b < c < d <= |s|
    && IsUpper(s[i]) && Every(s, i + 1, a, IsWord)
    && Every(s, a, b, IsSpace) && s[b] == ',' && Every(s, b + 1, c, IsSpace)
    && IsUpper(s[c]) && Every(s, c + 1, d, IsWord)
  }

  lemma SurnameParts(s: string, i: nat, a: nat, b: nat, c: nat, d: nat)
    requires SurnameMatch(s, i, a, b, c, d)
    ensures a == i + 1 + RunFrom(s, i + 1, IsWord)
    ensures b == a + RunFrom(s, a, IsSpace)
    ensures c == b + 1 + RunFrom(s, b + 1, IsSpace)
  {
    assert !IsWord(s[a]) by {
      if a < b {
        SpaceIsNotWord(s[a]);
      }
    }
    RunFromEnd(s, i + 1, a, IsWord);
    RunFromEnd(s, a, b, IsSpace);
    RunFromEnd(s, b + 1, c, IsSpace);
  }

  /** The match the pattern makes at `i`, as the ends of its parts. */
  function SurnameAt(s: string, i: nat): (r: Option<(nat, nat, nat, nat)>)
    ensures r.Some? ==> i + 2 <= r.value.0 <= r.value.1 < r.value.2 < r.value.3 <= |s|
  {
    if i >= |s| || !IsUpper(s[i]) then None
    else
      var a := i + 1 + RunFrom(s, i + 1, IsWord);
      var b := a + RunFrom(s, a, IsSpace);
      if a < i + 2 || b == |s| || s[b] != ',' then None
      else
        var c := b + 1 + RunFrom(s, b + 1, IsSpace);
        if c == |s| || !IsUpper(s[c]) then None
        else Some((a, b, c, c + 1 + RunFrom(s, c + 1, IsWord)))
  }

  lemma SurnameAtSound(s: string, i: nat)
    ensures SurnameAt(s, i).Some? ==> var v := SurnameAt(s, i).value;
      SurnameMatch(s, i, v.0, v.1, v.2, v.3) && (v.3 == |s| || !IsWord(s[v.3]))
  {
    var r := SurnameAt(s, i);
    if r.Some? {
      var a := i + 1 + RunFrom(s, i + 1, IsWord);
      var b := a + RunFrom(s, a, IsSpace);
      var c := b + 1 + RunFrom(s, b + 1, IsSpace);
      var d := c + 1 + RunFrom(s, c + 1, IsWord);
      assert r.value == (a, b, c, d);
      RunFromSpec(s, i + 1, IsWord);
      RunFromSpec(s, a, IsSpace);
      RunFromSpec(s, b + 1, IsSpace);
      RunFromSpec(s, c + 1, IsWord);
      assert SurnameMatch(s, i, a, b, c, d);
    }
  }

  lemma SurnameAtComplete(s: string, i: nat, a: nat, b: nat, c: nat, d: nat)
    requires SurnameMatch(s, i, a, b, c, d)
    ensures var r := SurnameAt(s, i);
      r.Some? && r.value.0 == a && r.value.1 == b && r.value.2 == c
  {
    SurnameParts(s, i, a, b, c, d);
  }

  // ---------------------------------------------------------------------
  // parseBibAuthors

  /** What the parser makes of one piece of the author string: the first
      pattern's leftmost match (given name = the capitals, family = the
      word after them), else the second pattern's (family first, then the
      given name after the comma), else nothing. */
  function ParseSegment(bit: string): Option<Author> {
    match SearchFrom(bit, 0, InitialsAt)
    case Some((i, (a, b, c))) => Some(Author(Some(bit[i..a]), Some(bit[b..c]), None))
    case None =>
      match SearchFrom(bit, 0, SurnameAt)
      case Some((i, (a, b, c, d))) => Some(Author(Some(bit[c..d]), Some(bit[i..a]), None))
      case None => None
  }

  /** What every parsed author looks like: a given name and a family name,
      both non-empty words, and no middle name. */
  ghost predicate Parsed(a: Author) {
    && a.given.Some? && a.family.Some? && a.middle.None?
    && a.given.value != [] && a.family.value != []
    && (forall k :: 0 <= k < |a.given.value| ==> IsWord(a.given.value[k]))
    && (forall k :: 0 <= k < |a.family.value| ==> IsWord(a.family.value[k]))
  }

  lemma InitialsParsed(s: string, i: nat, a: nat, b: nat, c: nat)
    requires InitialsMatch(s, i, a, b, c)
    ensures Parsed(Author(Some(s[i..a]), Some(s[b..c]), None))
  {
    assert forall k :: 0 <= k < a - i ==> s[i..a][k] == s[i + k];
    assert forall k :: 0 <= k < c - b ==> s[b..c][k] == s[b + k];
  }

  lemma SurnameParsed(s: string, i: nat, a: nat, b: nat, c: nat, d: nat)
    requires SurnameMatch(s, i, a, b, c, d)
    ensures Parsed(Author(Some(s[c..d]), Some(s[i..a]), None))
  {
    assert forall k :: 0 <= k < a - i ==> s[i..a][k] == s[i + k];
    assert forall k :: 0 <= k < d - c ==> s[c..d][k] == s[c + k];
  }

  lemma ParseSegmentParsed(bit: string)
    requires ParseSegment(bit).Some?
    ensures Parsed(ParseSegment(bit).value)
  {
    var m := SearchFrom(bit, 0, InitialsAt);
    if m.Some? {
      var (i, v) := m.value;
      InitialsAtSound(bit, i);
      InitialsParsed(bit, i, v.0, v.1, v.2);
      assert ParseSegment(bit).value == Author(Some(bit[i..v.0]), Some(bit[v.1..v.2]), None);
    } else {
      var m2 := SearchFrom(bit, 0, SurnameAt);
      var (i, v) := m2.value;
      SurnameAtSound(bit, i);
      SurnameParsed(bit, i, v.0, v.1, v.2, v.3);
      assert ParseSegment(bit).value == Author(Some(bit[v.2..v.3]), Some(bit[i..v.0]), None);
    }
  }

  function OptionList<T>(o: Option<T>): (r: seq<T>)
    ensures |r| <= 1 && (r == [] <==> o.None?)
  {
    if o.Some? then [o.value] else []
  }

  /** The authors read from the pieces, in piece order. */
  function SegmentAuthors(bits: seq<string>): (r: seq<Author>)
    ensures |r| <= |bits|
  {
    if bits == [] then []
    else SegmentAuthors(bits[..|bits| - 1]) + OptionList(ParseSegment(bits[|bits| - 1]))
  }

  /** At most one author per piece, each with a given and a family name. */
  lemma {:induction false} SegmentAuthorsParsed(bits: seq<string>)
    ensures forall k :: 0 <= k < |SegmentAuthors(bits)| ==> Parsed(SegmentAuthors(bits)[k])
    decreases |bits|
  {
    if bits != [] {
      SegmentAuthorsParsed(bits[..|bits| - 1]);
      var last := bits[|bits| - 1];
      if ParseSegment(last).Some? {
        ParseSegmentParsed(last);
      }
    }
  }

  /** `parseBibAuthors(authors)`. */
  method ParseBibAuthors(authors: string) returns (r: seq<Author>)
    ensures r == SegmentAuthors(Split(authors, "and"))
  {
    var bits := Split(authors, "and");
    r := [];
    for i := 0 to |bits|
      invariant r == SegmentAuthors(bits[..i])
    {
      assert bits[..i + 1][..i] == bits[..i];
      var bit := bits[i];
      var m := SearchFrom(bit, 0, InitialsAt);
      if m.Some? {
        var (k, (a, b, c)) := m.value;
        r := r + [Author(Some(bit[k..a]), Some(bit[b..c]), None)];
      } else {
        var m2 := SearchFrom(bit, 0, SurnameAt);
        if m2.Some? {
          var (k, (a, b, c, d)) := m2.value;
          r := r + [Author(Some(bit[c..d]), Some(bit[k..a]), None)];
        }
      }
    }
    assert bits[..|bits|] == bits;
  }

  /** Pieces contribute their authors independently and in order. */
  lemma {:induction false} SegmentAuthorsConcat(xs: seq<string>, ys: seq<string>)
    ensures SegmentAuthors(xs + ys) == SegmentAuthors(xs) + SegmentAuthors(ys)
    decreases |ys|
  {
    if ys == [] {
      assert xs + ys == xs;
    } else {
      var n := |ys| - 1;
      assert (xs + ys)[..|xs + ys| - 1] == xs + ys[..n];
      assert (xs + ys)[|xs + ys| - 1] == ys[n];
      SegmentAuthorsConcat(xs, ys[..n]);
    }
  }

  /** With no match of the first pattern anywhere, its search finds
      nothing. */
  lemma NoInitials(bit: string)
    requires forall j: nat, a: nat, b: nat, c: nat :: !InitialsMatch(bit, j, a, b, c)
    ensures SearchFrom(bit, 0, InitialsAt) == None
  {
    var m := SearchFrom(bit, 0, InitialsAt);
    if m.Some? {
      InitialsAtSound(bit, m.value.0);
    }
  }

  /** The search for the first pattern stops at its leftmost match. */
  lemma InitialsSearch(bit: string, i: nat)
    requires InitialsAt(bit, i).Some?
    requires forall j: nat, a: nat, b: nat, c: nat :: j < i ==> !InitialsMatch(bit, j, a, b, c)
    ensures SearchFrom(bit, 0, InitialsAt) == Some((i, InitialsAt(bit, i).value))
  {
    var m := SearchFrom(bit, 0, InitialsAt);
    assert i <= |bit|;
    if m.Some? && m.value.0 < i {
      InitialsAtSound(bit, m.value.0);
    }
  }

  /** The search for the second pattern stops at its leftmost match. */
  lemma SurnameSearch(bit: string, i: nat)
    requires SurnameAt(bit, i).Some?
    requires forall j: nat, a: nat, b: nat, c: nat, d: nat :: j < i ==> !SurnameMatch(bit, j, a, b, c, d)
    ensures SearchFrom(bit, 0, SurnameAt) == Some((i, SurnameAt(bit, i).value))
  {
    var m := SearchFrom(bit, 0, SurnameAt);
    assert i <= |bit|;
    if m.Some? && m.value.0 < i {
      SurnameAtSound(bit, m.value.0);
    }
  }

  /** The first pattern wins at its leftmost, greedy match. */
  lemma InitialsFirst(bit: string, i: nat, a: nat, b: nat, c: nat)
    requires InitialsMatch(bit, i, a, b, c) && (c == |bit| || !IsWord(bit[c]))
    requires forall j: nat, a': nat, b': nat, c': nat :: j < i ==> !InitialsMatch(bit, j, a', b', c')
    ensures ParseSegment(bit) == Some(Author(Some(bit[i..a]), Some(bit[b..c]), None))
  {
    InitialsAtComplete(bit, i, a, b, c);
    InitialsAtSound(bit, i);
    RunFromEnd(bit, b, c, IsWord);
    InitialsSearch(bit, i);
  }

  /** With no match of the first pattern anywhere, the second pattern wins
      at its leftmost, greedy match, family name first. */
  lemma SurnameSecond(bit: string, i: nat, a: nat, b: nat, c: nat, d: nat)
    requires forall j: nat, a': nat, b': nat, c': nat :: !InitialsMatch(bit, j, a', b', c')
    requires SurnameMatch(bit, i, a, b, c, d) && (d == |bit| || !IsWord(bit[d]))
    requires forall j: nat, a': nat, b': nat, c': nat, d': nat :: j < i ==> !SurnameMatch(bit, j, a', b', c', d')
    ensures ParseSegment(bit) == Some(Author(Some(bit[c..d]), Some(bit[i..a]), None))
  {
    SurnameAtComplete(bit, i, a, b, c, d);
    SurnameAtSound(bit, i);
    RunFromEnd(bit, c + 1, d, IsWord);
    RunFromEnd(bit, c + 1, SurnameAt(bit, i).value.3, IsWord);
    NoInitials(bit);
    SurnameSearch(bit, i);
  }

  /** A piece is dropped exactly when neither pattern matches anywhere in
      it; the parser never raises for it. */
  lemma DroppedIffNoMatch(bit: string)
    ensures ParseSegment(bit).None? <==>
      (forall j: nat, a: nat, b: nat, c: nat :: !InitialsMatch(bit, j, a, b, c))
      && (forall j: nat, a: nat, b: nat, c: nat, d: nat :: !SurnameMatch(bit, j, a, b, c, d))
  {
    var m := SearchFrom(bit, 0, InitialsAt);
    var m2 := SearchFrom(bit, 0, SurnameAt);
    if m.Some? {
      InitialsAtSound(bit, m.value.0);
    } else if m2.Some? {
      SurnameAtSound(bit, m2.value.0);
    } else {
      forall j: nat, a: nat, b: nat, c: nat | InitialsMatch(bit, j, a, b, c) ensures false {
        InitialsAtComplete(bit, j, a, b, c);
      }
      forall j: nat, a: nat, b: nat, c: nat, d: nat | SurnameMatch(bit, j, a, b, c, d) ensures false {
        SurnameAtComplete(bit, j, a, b, c, d);
      }
    }
  }

  // ---------------------------------------------------------------------
  // authorListFromDict

  /** One author as the serialiser writes it: given name and middle name
      with no separator, a blank, then the family name. */
  function AuthorString(a: Author): string {
    OrEmpty(a.given) + OrEmpty(a.middle) + " " + OrEmpty(a.family)
  }

  function AuthorStrings(authors: seq<Author>): (r: seq<string>)
    ensures |r| == |authors| && forall k :: 0 <= k < |r| ==> r[k] == AuthorString(authors[k])
  {
    seq(|authors|, k requires 0 <= k < |authors| => AuthorString(authors[k]))
  }

  /** `authorListFromDict(authors)`. */
  method AuthorListFromDict(authors: seq<Author>) returns (r: string)
    ensures r == Join(AuthorStrings(authors), " and ")
  {
    var strings: seq<string> := [];
    for i := 0 to |authors|
      invariant strings == AuthorStrings(authors[..i])
    {
      strings := strings + [AuthorString(authors[i])];
    }
    assert authors[..|authors|] == authors;
    r := Join(strings, " and ");
  }

  /** An author the serialiser and the parser agree on: capitals for the
      given name, one word without "and" for the family name, no middle
      name. */
  ghost predicate RoundTrips(a: Author) {
    && a.given.Some? && a.family.Some? && a.middle.None?
    && a.given.value != [] && (forall k :: 0 <= k < |a.given.value| ==> IsUpper(a.given.value[k]))
    && a.family.value != [] && (forall k :: 0 <= k < |a.family.value| ==> IsWord(a.family.value[k]))
    && !Contains(a.family.value, "and")
  }

  ghost predicate AndFree(s: string) {
    !Contains(s, "and")
  }

  lemma AndFreeConcat(x: string, y: string)
    requires AndFree(x) && AndFree(y)
    requires (x != [] && x[|x| - 1] == ' ') || (y != [] && y[0] == ' ')
    ensures AndFree(x + y)
  {
    var s := x + y;
    forall j | 0 <= j <= |s| ensures !OccursAt(s, "and", j) {
      if j + 3 <= |s| {
        if j + 3 <= |x| {
          assert s[j..j + 3] == x[j..j + 3];
          assert !OccursAt(x, "and", j);
        } else if j >= |x| {
          assert s[j..j + 3] == y[j - |x|..j - |x| + 3];
          assert !OccursAt(y, "and", j - |x|);
        } else {
          assert s[|x| - 1] == s[j..j + 3][|x| - 1 - j];
          assert s[|x|] == s[j..j + 3][|x| - j];
        }
      }
    }
  }

  lemma UpperAndFree(g: string)
    requires forall k :: 0 <= k < |g| ==> IsUpper(g[k])
    ensures AndFree(g)
  {
    forall j | 0 <= j <= |g| ensures !OccursAt(g, "and", j) {
      if j + 3 <= |g| {
        assert g[j] == g[j..j + 3][0];
      }
    }
  }

  /** The first "and" after an and-free `x` is the one of the separator. */
  lemma SplitAtSeparator(x: string, rest: string)
    requires AndFree(x + " ")
    ensures Split(x + " and " + rest, "and") == [x + " "] + Split(" " + rest, "and")
  {
    var s := x + " and " + rest;
    var p := |x| + 1;
    assert s[p..p + 3] == "and";
    forall j | 0 <= j < p ensures !OccursAt(s, "and", j) {
      if j + 3 <= p {
        assert s[j..j + 3] == (x + " ")[j..j + 3];
        assert !OccursAt(x + " ", "and", j);
      } else {
        assert s[|x|] == s[j..j + 3][|x| - j];
      }
    }
    assert OccursAt(s, "and", p);
    FindSpec(s, "and");
    assert Find(s, "and") == p;
    assert s == (x + " ") + "and" + (" " + rest);
    assert s[..p] == x + " ";
    assert s[p + 3..] == " " + rest;
  }

  /** No match of the first pattern starts at a blank. */
  lemma NoInitialsAtBlank(s: string, j: nat)
    requires j < |s| && IsSpace(s[j])
    ensures forall a: nat, b: nat, c: nat :: !InitialsMatch(s, j, a, b, c)
  {
    assert !IsUpper(s[j]);
  }

  /** One serialised author, possibly after the blank that follows "and"
      and before the blank that precedes it, parses back to itself. */
  lemma PieceParses(pad: string, a: Author, tail: string)
    requires pad == "" || pad == " "
    requires tail == "" || tail == " "
    requires RoundTrips(a)
    ensures ParseSegment(pad + AuthorString(a) + tail) == Some(a)
  {
    var g := a.given.value;
    var f := a.family.value;
    var s := pad + AuthorString(a) + tail;
    var i := |pad|;
    var e := i + |g|;
    var b := e + 1;
    var c := b + |f|;
    assert s == pad + g + " " + f + tail;
    PartsOfPiece(pad, g, f, tail);
    EverySlice(s, i, e, g, IsUpper);
    EverySlice(s, e, b, " ", IsSpace);
    EverySlice(s, b, c, f, IsWord);
    assert InitialsMatch(s, i, e, b, c);
    if tail == " " {
      assert s[c] == ' ';
    }
    if pad == " " {
      assert s[0] == ' ';
      NoInitialsAtBlank(s, 0);
    }
    InitialsFirst(s, i, e, b, c);
  }

  lemma PartsOfPiece(pad: string, g: string, f: string, tail: string)
    ensures var s, i := pad + g + " " + f + tail, |pad|;
      && s[i..i + |g|] == g && s[i + |g|..i + |g| + 1] == " "
      && s[i + |g| + 1..i + |g| + 1 + |f|] == f
  {
    var s, i := pad + g + " " + f + tail, |pad|;
    assert s == pad + (g + (" " + (f + tail)));
  }

  /** The pieces of a string made of serialised authors. */
  lemma AndFreePiece(pad: string, a: Author, tail: string)
    requires pad == "" || pad == " "
    requires tail == "" || tail == " "
    requires RoundTrips(a)
    ensures AndFree(pad + AuthorString(a) + tail)
  {
    var g := a.given.value;
    var f := a.family.value;
    UpperAndFree(g);
    assert AndFree(pad + g) by {
      if pad == "" {
        assert pad + g == g;
      } else {
        AndFreeConcat(pad, g);
      }
    }
    AndFreeConcat(pad + g, " ");
    AndFreeConcat(pad + g + " ", f);
    assert pad + AuthorString(a) + tail == pad + g + " " + f + tail;
    if tail == " " {
      AndFreeConcat(pad + g + " " + f, tail);
    } else {
      assert pad + g + " " + f + tail == pad + g + " " + f;
    }
  }

  /** What splitting a serialised author list on "and" gives: each author
      with the blanks around its separators. */
  function Pieces(pad: string, authors: seq<Author>): seq<string>
    requires authors != []
    decreases |authors|
  {
    if |authors| == 1 then [pad + AuthorString(authors[0])]
    else [pad + AuthorString(authors[0]) + " "] + Pieces(" ", authors[1..])
  }

  /** A single author's string holds no separator: it splits into itself. */
  lemma SplitOfOneAuthor(pad: string, a: Author)
    requires pad == "" || pad == " "
    requires RoundTrips(a)
    ensures Split(pad + AuthorString(a), "and") == [pad + AuthorString(a)]
  {
    AndFreePiece(pad, a, "");
    assert pad + AuthorString(a) + "" == pad + AuthorString(a);
    FindSpec(pad + AuthorString(a), "and");
  }

  lemma {:induction false} SplitOfAuthorList(pad: string, authors: seq<Author>)
    requires pad == "" || pad == " "
    requires authors != [] && forall k :: 0 <= k < |authors| ==> RoundTrips(authors[k])
    ensures Split(pad + Join(AuthorStrings(authors), " and "), "and") == Pieces(pad, authors)
    decreases |authors|
  {
    var a := authors[0];
    var t := AuthorString(a);
    if |authors| == 1 {
      assert Join(AuthorStrings(authors), " and ") == t;
      SplitOfOneAuthor(pad, a);
    } else {
      var rest := authors[1..];
      assert AuthorStrings(authors)[1..] == AuthorStrings(rest);
      var j := Join(AuthorStrings(rest), " and ");
      assert Join(AuthorStrings(authors), " and ") == t + " and " + j;
      AndFreePiece(pad, a, " ");
      ConcatRegroup(pad, t, " and ", j);
      SplitAtSeparator(pad + t, j);
      SplitOfAuthorList(" ", rest);
    }
  }

  lemma SegmentAuthorsOne(x: string)
    ensures SegmentAuthors([x]) == OptionList(ParseSegment(x))
  {
    assert [x][..0] == [];
  }

  lemma {:induction false} PiecesParse(pad: string, authors: seq<Author>)
    requires pad == "" || pad == " "
    requires authors != [] && forall k :: 0 <= k < |authors| ==> RoundTrips(authors[k])
    ensures SegmentAuthors(Pieces(pad, authors)) == authors
    decreases |authors|
  {
    var a := authors[0];
    var t := AuthorString(a);
    if |authors| == 1 {
      PieceParses(pad, a, "");
      assert pad + t + "" == pad + t;
      SegmentAuthorsOne(pad + t);
    } else {
      var x := pad + t + " ";
      var rest := authors[1..];
      assert authors == [a] + rest;
      PieceParses(pad, a, " ");
      SegmentAuthorsOne(x);
      PiecesParse(" ", rest);
      assert Pieces(pad, authors) == [x] + Pieces(" ", rest);
      SegmentAuthorsConcat([x], Pieces(" ", rest));
    }
  }

  /** Parsing a serialised author list gives the authors back, for authors
      whose given name is capitals and whose family name is one word with
      no "and" in it. */
  lemma ParseOfAuthorList(authors: seq<Author>)
    requires forall k :: 0 <= k < |authors| ==> RoundTrips(authors[k])
    ensures SegmentAuthors(Split(Join(AuthorStrings(authors), " and "), "and")) == authors
  {
    if authors == [] {
      FindSpec("", "and");
      assert Split("", "and") == [""];
      assert [""][..0] == [];
      assert SegmentAuthors([""]) == OptionList(ParseSegment(""));
      assert SearchFrom("", 0, InitialsAt) == None;
      assert SearchFrom("", 0, SurnameAt) == None;
    } else {
      SplitOfAuthorList("", authors);
      PiecesParse("", authors);
      assert "" + Join(AuthorStrings(authors), " and ") == Join(AuthorStrings(authors), " and ");
    }
  }

  // ---------------------------------------------------------------------
  // fix_bib_data

  /** The generated key: the first parsed author's family name, the year
      (or "____"), and the lower-cased first word of the title; each
      missing piece raises, in the order the expression reads them. */
  function GeneratedId(f: Fields): Result<string> {
    IdFrom(Get(f, "author"), GetOr(f, "year", "____"), Get(f, "title"))
  }

  function IdFrom(author: Option<string>, year: string, title: Option<string>): Result<string> {
    if author.None? then Err(KeyError("author"))
    else
      var authors := SegmentAuthors(Split(author.value, "and"));
      if authors == [] then Err(IndexError)
      else if title.None? then Err(KeyError("title"))
      else match FirstWord(title.value)
        case None => Err(IndexError)
        case Some(w) => Ok(OrEmpty(authors[0].family) + year + Lower(w))
  }

  /** When the key cannot be made, and what it is when it can. */
  lemma GeneratedIdCases(f: Fields)
    ensures GeneratedId(f) == Err(KeyError("author")) <==> "author" !in f
    ensures "author" in f && SegmentAuthors(Split(f["author"], "and")) == [] ==> GeneratedId(f) == Err(IndexError)
    ensures "author" in f && SegmentAuthors(Split(f["author"], "and")) != [] && "title" !in f ==> GeneratedId(f) == Err(KeyError("title"))
    ensures "author" in f && SegmentAuthors(Split(f["author"], "and")) != [] && "title" in f && FirstWord(f["title"]).None? ==>
      GeneratedId(f) == Err(IndexError)
    ensures ("author" in f && SegmentAuthors(Split(f["author"], "and")) != [] && "title" in f
             && forall i :: 0 <= i < |f["title"]| ==> IsSpace(f["title"][i])) ==>
      GeneratedId(f) == Err(IndexError)
    ensures "author" in f && SegmentAuthors(Split(f["author"], "and")) != [] && "title" in f && FirstWord(f["title"]).Some? ==>
      GeneratedId(f).Ok?
    ensures GeneratedId(f).Ok? ==> "author" in f && "title" in f && FirstWord(f["title"]).Some?
    ensures GeneratedId(f).Ok? ==> var authors := SegmentAuthors(Split(f["author"], "and"));
      && authors != []
      && GeneratedId(f).value == OrEmpty(authors[0].family) + GetOr(f, "year", "____") + Lower(FirstWord(f["title"]).value)
  {
    if "title" in f {
      FirstWordSpec(f["title"]);
    }
  }

  /** The fields after `fix_bib_data`, and the exception it raised, if any
      (the entry type is already filled in when the key fails). */
  datatype Fixed = Fixed(fields: Fields, error: Option<Error>)

  /** The fields once the entry type is filled in and, when the key is
      absent, the key `id` is stored or its exception raised. */
  function Filled(f: Fields, id: Result<string>): (r: Fixed)
    ensures forall k :: k in f ==> k in r.fields && r.fields[k] == f[k]
    ensures r.fields.Keys == f.Keys + {"ENTRYTYPE"} + (if "ID" !in f && id.Ok? then {"ID"} else {})
    ensures "ENTRYTYPE" !in f ==> r.fields["ENTRYTYPE"] == "ARTICLE"
    ensures r.error.Some? <==> "ID" !in f && id.Err?
    ensures r.error.Some? ==> r.error.value == id.error
    ensures "ID" !in f && id.Ok? ==> r.fields["ID"] == id.value
  {
    var g := if "ENTRYTYPE" in f then f else f["ENTRYTYPE" := "ARTICLE"];
    if "ID" in f then Fixed(g, None)
    else match id
      case Ok(v) => Fixed(g["ID" := v], None)
      case Err(e) => Fixed(g, Some(e))
  }

  /** What `fix_bib_data` leaves in the dictionary, and what it raises. */
  function FixBib(f: Fields): Fixed {
    Filled(f, GeneratedId(f))
  }

  /** Fixing a fixed entry changes nothing, and raises again exactly when
      the first fix raised. */
  lemma FixBibIdempotent(f: Fields)
    ensures FixBib(FixBib(f).fields) == FixBib(f)
  {
    var g := FixBib(f).fields;
    if "ID" !in g {
      assert Get(g, "author") == Get(f, "author") && Get(g, "title") == Get(f, "title");
      assert GetOr(g, "year", "____") == GetOr(f, "year", "____");
    }
  }

  /** `fix_bib_data(bib, index)`: the index plays no part. */
  method FixBibData(bib: Bib, index: int) returns (r: Result<Bib>)
    modifies bib
    ensures bib.fields == FixBib(old(bib.fields)).fields
    ensures r.Ok? <==> FixBib(old(bib.fields)).error.None?
    ensures r.Ok? ==> r.value == bib
    ensures r.Err? ==> r.error == FixBib(old(bib.fields)).error.value
  {
    ghost var f := bib.fields;
    if "ENTRYTYPE" !in bib.fields {
      bib.fields := bib.fields["ENTRYTYPE" := "ARTICLE"];
    }
    assert Get(bib.fields, "author") == Get(f, "author") && Get(bib.fields, "title") == Get(f, "title");
    assert GetOr(bib.fields, "year", "____") == GetOr(f, "year", "____");
    if "ID" !in bib.fields {
      if "author" !in bib.fields {
        return Err(KeyError("author"));
      }
      var authors := ParseBibAuthors(bib.fields["author"]);
      if authors == [] {
        return Err(IndexError);
      }
      var year := GetOr(bib.fields, "year", "____");
      if "title" !in bib.fields {
        return Err(KeyError("title"));
      }
      var word := FirstWord(bib.fields["title"]);
      if word.None? {
        return Err(IndexError);
      }
      bib.fields := bib.fields["ID" := OrEmpty(authors[0].family) + year + Lower(word.value)];
    }
    return Ok(bib);
  }
}
