/** Set algebra over two bibliographies. Each bibliography becomes an
    insertion-ordered dictionary from normalised title to entry; difference,
    intersection and union are read off those dictionaries in their order
    and wrapped as papers with empty auxiliary data. */
module BibDiff {
  import opened Common
  import Data

  // ---------------------------------------------------------------------
  // Insertion-ordered dictionaries

  /** A Python dict from normalised title to entry: its keys in insertion
      order and its key-to-entry map. */
  datatype Table = Table(keys: seq<string>, entries: map<string, Fields>)

  predicate Distinct(ks: seq<string>) {
    forall i, j :: 0 <= i < j < |ks| ==> ks[i] != ks[j]
  }

  /** The order lists each key of the map exactly once. */
  predicate Valid(t: Table) {
    && Distinct(t.keys)
    && (forall k :: k in t.entries ==> k in t.keys)
    && (forall i :: 0 <= i < |t.keys| ==> t.keys[i] in t.entries)
  }

  const Empty := Table([], map[])

  /** `d[k] = v`: a new key goes last, an existing key keeps its place. */
  function Assign(t: Table, k: string, v: Fields): Table {
    Table(if k in t.entries then t.keys else t.keys + [k], t.entries[k := v])
  }

  lemma AssignValid(t: Table, k: string, v: Fields)
    requires Valid(t)
    ensures Valid(Assign(t, k, v))
  {
    var r := Assign(t, k, v);
    if k !in t.entries {
      forall i, j | 0 <= i < j < |r.keys| ensures r.keys[i] != r.keys[j] {
        if j == |t.keys| {
          assert r.keys[i] == t.keys[i];
        }
      }
    }
  }

  /** The keys of `ks`, in order, whose membership in `s` is `inside`. */
  function Select(ks: seq<string>, s: set<string>, inside: bool): (r: seq<string>)
    ensures |r| <= |ks|
  {
    SelectUpTo(ks, |ks|, s, inside)
  }

  /** The same among the first `n` keys. */
  function SelectUpTo(ks: seq<string>, n: nat, s: set<string>, inside: bool): (r: seq<string>)
    requires n <= |ks|
    ensures |r| <= n
  {
    if n == 0 then []
    else SelectUpTo(ks, n - 1, s, inside) + (if (ks[n - 1] in s) == inside then [ks[n - 1]] else [])
  }

  /** The first `n` keys as a set. */
  function PrefixSet(ks: seq<string>, n: nat): set<string>
    requires n <= |ks|
  {
    if n == 0 then {} else PrefixSet(ks, n - 1) + {ks[n - 1]}
  }

  lemma {:induction false} PrefixSetHas(ks: seq<string>, n: nat, j: nat)
    requires j < n <= |ks|
    ensures ks[j] in PrefixSet(ks, n)
  {
    if j < n - 1 {
      PrefixSetHas(ks, n - 1, j);
    }
  }

  lemma {:induction false} PrefixSetAvoids(ks: seq<string>, n: nat, k: string)
    requires n <= |ks| && forall j :: 0 <= j < n ==> ks[j] != k
    ensures k !in PrefixSet(ks, n)
  {
    if n > 0 {
      PrefixSetAvoids(ks, n - 1, k);
    }
  }

  lemma {:induction false} SelectUpToSound(ks: seq<string>, n: nat, s: set<string>, inside: bool)
    requires n <= |ks|
    ensures forall k :: k in SelectUpTo(ks, n, s, inside) ==> k in ks && (k in s) == inside
  {
    if n > 0 {
      SelectUpToSound(ks, n - 1, s, inside);
    }
  }

  lemma {:induction false} SelectUpToComplete(ks: seq<string>, n: nat, s: set<string>, inside: bool)
    requires n <= |ks|
    ensures forall j :: 0 <= j < n && (ks[j] in s) == inside ==> ks[j] in SelectUpTo(ks, n, s, inside)
  {
    if n > 0 {
      SelectUpToComplete(ks, n - 1, s, inside);
    }
  }

  /** A key none of the first `n` is not selected from them. */
  lemma {:induction false} SelectUpToAvoids(ks: seq<string>, n: nat, s: set<string>, inside: bool, k: string)
    requires n <= |ks| && forall j :: 0 <= j < n ==> ks[j] != k
    ensures k !in SelectUpTo(ks, n, s, inside)
  {
    if n > 0 {
      SelectUpToAvoids(ks, n - 1, s, inside, k);
    }
  }

  lemma SelectSpec(ks: seq<string>, s: set<string>, inside: bool)
    ensures forall k :: k in Select(ks, s, inside) <==> k in ks && (k in s) == inside
  {
    SelectUpToSound(ks, |ks|, s, inside);
    SelectUpToComplete(ks, |ks|, s, inside);
  }

  lemma {:induction false} SelectUpToSubsequence(ks: seq<string>, n: nat, s: set<string>, inside: bool)
    requires n <= |ks|
    ensures Subsequence(SelectUpTo(ks, n, s, inside), ks[..n])
  {
    if n > 0 {
      SelectUpToSubsequence(ks, n - 1, s, inside);
      var before := SelectUpTo(ks, n - 1, s, inside);
      assert ks[..n] == ks[..n - 1] + [ks[n - 1]];
      if (ks[n - 1] in s) == inside {
        assert SelectUpTo(ks, n, s, inside) == before + [ks[n - 1]];
        SubsequenceSnoc(before, ks[..n - 1], ks[n - 1]);
      } else {
        assert SelectUpTo(ks, n, s, inside) == before;
        SubsequenceExtend(before, ks[..n - 1], ks[n - 1]);
      }
    }
  }

  lemma SelectIsSubsequence(ks: seq<string>, s: set<string>, inside: bool)
    ensures Subsequence(Select(ks, s, inside), ks)
  {
    SelectUpToSubsequence(ks, |ks|, s, inside);
    assert ks[..|ks|] == ks;
  }

  lemma {:induction false} SelectUpToDistinct(ks: seq<string>, n: nat, s: set<string>, inside: bool)
    requires n <= |ks| && Distinct(ks)
    ensures Distinct(SelectUpTo(ks, n, s, inside))
  {
    if n > 0 {
      SelectUpToDistinct(ks, n - 1, s, inside);
      forall j | 0 <= j < n - 1 ensures ks[j] != ks[n - 1] {
      }
      SelectUpToAvoids(ks, n - 1, s, inside, ks[n - 1]);
    }
  }

  lemma SelectDistinct(ks: seq<string>, s: set<string>, inside: bool)
    requires Distinct(ks)
    ensures Distinct(Select(ks, s, inside))
  {
    SelectUpToDistinct(ks, |ks|, s, inside);
  }

  lemma {:induction false} SelectUpToSplit(ks: seq<string>, n: nat, s: set<string>)
    requires n <= |ks|
    ensures |SelectUpTo(ks, n, s, true)| + |SelectUpTo(ks, n, s, false)| == n
  {
    if n > 0 {
      SelectUpToSplit(ks, n - 1, s);
    }
  }

  /** Every key is either inside `s` or not. */
  lemma SelectSplit(ks: seq<string>, s: set<string>)
    ensures |Select(ks, s, true)| + |Select(ks, s, false)| == |ks|
  {
    SelectUpToSplit(ks, |ks|, s);
  }

  lemma {:induction false} SelectUpToCount(ks: seq<string>, n: nat, s: set<string>)
    requires n <= |ks| && Distinct(ks)
    ensures |SelectUpTo(ks, n, s, true)| == |PrefixSet(ks, n) * s|
  {
    if n > 0 {
      SelectUpToCount(ks, n - 1, s);
      var k := ks[n - 1];
      forall j | 0 <= j < n - 1 ensures ks[j] != k {
      }
      PrefixSetAvoids(ks, n - 1, k);
      PrefixMeetStep(ks, n, s);
    }
  }

  /** The keys of `s` among the first `n`: those among the first `n - 1`,
      and the last when it is in `s`. */
  lemma PrefixMeetStep(ks: seq<string>, n: nat, s: set<string>)
    requires 0 < n <= |ks|
    ensures PrefixSet(ks, n) * s == PrefixSet(ks, n - 1) * s + (if ks[n - 1] in s then {ks[n - 1]} else {})
  {
  }

  /** A key list without repeats selects as many keys as its set shares
      with `s`. */
  lemma SelectCount(ks: seq<string>, s: set<string>)
    requires Distinct(ks)
    ensures |Select(ks, s, true)| == |PrefixSet(ks, |ks|) * s|
  {
    SelectUpToCount(ks, |ks|, s);
  }

  lemma {:induction false} PrefixSetIn(t: Table, n: nat)
    requires Valid(t) && n <= |t.keys|
    ensures PrefixSet(t.keys, n) <= t.entries.Keys
  {
    if n > 0 {
      PrefixSetIn(t, n - 1);
    }
  }

  lemma ValidKeySet(t: Table)
    requires Valid(t)
    ensures PrefixSet(t.keys, |t.keys|) == t.entries.Keys
  {
    PrefixSetIn(t, |t.keys|);
    forall k | k in t.entries ensures k in PrefixSet(t.keys, |t.keys|) {
      var j :| 0 <= j < |t.keys| && t.keys[j] == k;
      PrefixSetHas(t.keys, |t.keys|, j);
    }
  }

  // ---------------------------------------------------------------------
  // merge_two_dicts

  /** `z.update(y)` on the first `n` keys of `y`, one assignment per key in
      `y`'s order. */
  function UpdateWith(z: Table, y: Table, n: nat): Table
    requires Valid(y) && n <= |y.keys|
  {
    if n == 0 then z
    else Assign(UpdateWith(z, y, n - 1), y.keys[n - 1], y.entries[y.keys[n - 1]])
  }

  /** `merge_two_dicts(x, y)`: a copy of `x` updated with `y`. Being a
      value, `x` itself is not changed. */
  function MergeTwoDicts(x: Table, y: Table): Table
    requires Valid(y)
  {
    UpdateWith(x, y, |y.keys|)
  }

  lemma {:induction false} UpdateWithDomain(x: Table, y: Table, n: nat)
    requires Valid(y) && n <= |y.keys|
    ensures UpdateWith(x, y, n).entries.Keys == x.entries.Keys + PrefixSet(y.keys, n)
  {
    if n > 0 {
      UpdateWithDomain(x, y, n - 1);
    }
  }

  lemma {:induction false} UpdateWithNew(x: Table, y: Table, n: nat)
    requires Valid(y) && n <= |y.keys|
    ensures forall k :: k in PrefixSet(y.keys, n) ==>
      k in y.entries && k in UpdateWith(x, y, n).entries && UpdateWith(x, y, n).entries[k] == y.entries[k]
  {
    if n > 0 {
      UpdateWithNew(x, y, n - 1);
      UpdateWithDomain(x, y, n - 1);
    }
  }

  lemma {:induction false} UpdateWithOld(x: Table, y: Table, n: nat)
    requires Valid(y) && n <= |y.keys|
    ensures forall k :: k in x.entries && k !in PrefixSet(y.keys, n) ==>
      k in UpdateWith(x, y, n).entries && UpdateWith(x, y, n).entries[k] == x.entries[k]
  {
    if n > 0 {
      UpdateWithOld(x, y, n - 1);
      UpdateWithDomain(x, y, n - 1);
    }
  }

  lemma {:induction false} UpdateWithValid(x: Table, y: Table, n: nat)
    requires Valid(x) && Valid(y) && n <= |y.keys|
    ensures Valid(UpdateWith(x, y, n))
  {
    if n > 0 {
      UpdateWithValid(x, y, n - 1);
      AssignValid(UpdateWith(x, y, n - 1), y.keys[n - 1], y.entries[y.keys[n - 1]]);
    }
  }

  /** A key none of the first `n` assignments touches is in the result
      exactly when it is in `x`. */
  lemma {:induction false} UpdateWithHas(x: Table, y: Table, n: nat, k: string)
    requires Valid(y) && n <= |y.keys|
    requires forall j :: 0 <= j < n ==> y.keys[j] != k
    ensures (k in UpdateWith(x, y, n).entries) == (k in x.entries)
  {
    if n > 0 {
      UpdateWithHas(x, y, n - 1, k);
    }
  }

  lemma {:induction false} UpdateWithKeys(x: Table, y: Table, n: nat)
    requires Valid(y) && n <= |y.keys|
    ensures UpdateWith(x, y, n).keys == x.keys + SelectUpTo(y.keys, n, x.entries.Keys, false)
  {
    if n > 0 {
      UpdateWithKeys(x, y, n - 1);
      var k := y.keys[n - 1];
      forall j | 0 <= j < n - 1 ensures y.keys[j] != k {
        assert y.keys[j] != y.keys[n - 1];
      }
      UpdateWithHas(x, y, n - 1, k);
      var before := SelectUpTo(y.keys, n - 1, x.entries.Keys, false);
      if k !in x.entries {
        assert x.keys + before + [k] == x.keys + (before + [k]);
      }
    }
  }

  /** The merged dictionary holds the keys of both, `x`'s in their order
      followed by `y`'s new ones in theirs; on a shared key `y`'s entry
      wins. */
  lemma MergeTwoDictsSpec(x: Table, y: Table)
    requires Valid(x) && Valid(y)
    ensures var z := MergeTwoDicts(x, y);
      && Valid(z)
      && z.keys == x.keys + Select(y.keys, x.entries.Keys, false)
      && z.entries.Keys == x.entries.Keys + y.entries.Keys
      && (forall k :: k in y.entries ==> z.entries[k] == y.entries[k])
      && (forall k :: k in x.entries && k !in y.entries ==> z.entries[k] == x.entries[k])
  {
    ValidKeySet(y);
    UpdateWithValid(x, y, |y.keys|);
    UpdateWithKeys(x, y, |y.keys|);
    UpdateWithDomain(x, y, |y.keys|);
    UpdateWithNew(x, y, |y.keys|);
    UpdateWithOld(x, y, |y.keys|);
  }

  // ---------------------------------------------------------------------
  // buildHashTable

  /** The dictionary `buildHashTable(bib)` builds, keyed by
      `normalize(entry['title'])`; an entry without a title raises
      KeyError. */
  function HashTable(bib: seq<Fields>, normalize: string -> string): Result<Table> {
    HashPrefix(bib, |bib|, normalize)
  }

  /** The dictionary after the first `n` entries. */
  function HashPrefix(bib: seq<Fields>, n: nat, normalize: string -> string): Result<Table>
    requires n <= |bib|
  {
    if n == 0 then Ok(Empty)
    else
      match HashPrefix(bib, n - 1, normalize)
      case Err(e) => Err(e)
      case Ok(t) =>
        var entry := bib[n - 1];
        if "title" !in entry then Err(KeyError("title"))
        else Ok(Assign(t, normalize(entry["title"]), entry))
  }

  /** An error after `m` entries is the result after any later count. */
  lemma {:induction false} HashPrefixStops(bib: seq<Fields>, m: nat, n: nat, normalize: string -> string)
    requires m <= n <= |bib| && HashPrefix(bib, m, normalize).Err?
    ensures HashPrefix(bib, n, normalize) == HashPrefix(bib, m, normalize)
    decreases n - m
  {
    if m < n {
      HashPrefixStops(bib, m, n - 1, normalize);
    }
  }

  /** One more entry: KeyError without a title, otherwise its assignment. */
  lemma HashPrefixStep(bib: seq<Fields>, i: nat, t: Table, normalize: string -> string)
    requires i < |bib| && HashPrefix(bib, i, normalize) == Ok(t)
    ensures HashPrefix(bib, i + 1, normalize) ==
      if "title" !in bib[i] then Err(KeyError("title")) else Ok(Assign(t, normalize(bib[i]["title"]), bib[i]))
  {
  }

  /** `buildHashTable(bib)`, with the title normaliser as a parameter. */
  method BuildHashTable(bib: seq<Fields>, normalize: string -> string) returns (r: Result<Table>)
    ensures r == HashPrefix(bib, |bib|, normalize)
  {
    var res := Empty;
    for i := 0 to |bib|
      invariant HashPrefix(bib, i, normalize) == Ok(res)
    {
      var next := AddEntry(bib, i, res, normalize);
      if next.Err? {
        HashPrefixStops(bib, i + 1, |bib|, normalize);
        return next;
      }
      res := next.value;
    }
    r := Ok(res);
  }

  /** One pass of the loop: `hash_table[normalize(entry['title'])] = entry`,
      or the KeyError of an entry without a title. */
  method AddEntry(bib: seq<Fields>, i: nat, res: Table, normalize: string -> string) returns (next: Result<Table>)
    requires i < |bib| && HashPrefix(bib, i, normalize) == Ok(res)
    ensures next == HashPrefix(bib, i + 1, normalize)
  {
    var entry := bib[i];
    if "title" !in entry {
      return Err(KeyError("title"));
    }
    var normTitle := normalize(entry["title"]);
    next := Ok(Assign(res, normTitle, entry));
  }

  /** The table raises, with KeyError('title'), exactly when some entry
      has no title. */
  lemma {:induction false} HashTableRaises(bib: seq<Fields>, n: nat, normalize: string -> string)
    requires n <= |bib|
    ensures HashPrefix(bib, n, normalize).Ok? <==> forall i :: 0 <= i < n ==> "title" in bib[i]
    ensures HashPrefix(bib, n, normalize).Err? ==> HashPrefix(bib, n, normalize).error == KeyError("title")
  {
    if n > 0 {
      HashTableRaises(bib, n - 1, normalize);
    }
  }

  /** The normalised title of an entry. */
  function Key(entry: Fields, normalize: string -> string): string
    requires "title" in entry
  {
    normalize(entry["title"])
  }

  /** Once built, the table lists each of its keys once. */
  lemma {:induction false} HashTableValid(bib: seq<Fields>, n: nat, normalize: string -> string)
    requires n <= |bib| && forall i :: 0 <= i < n ==> "title" in bib[i]
    ensures HashPrefix(bib, n, normalize).Ok? && Valid(HashPrefix(bib, n, normalize).value)
  {
    HashTableRaises(bib, n, normalize);
    if n > 0 {
      HashTableValid(bib, n - 1, normalize);
      AssignValid(HashPrefix(bib, n - 1, normalize).value, Key(bib[n - 1], normalize), bib[n - 1]);
    }
  }

  /** Every key of the table is some entry's normalised title. */
  lemma {:induction false} HashTableKeysSound(bib: seq<Fields>, n: nat, normalize: string -> string)
    requires n <= |bib| && forall i :: 0 <= i < n ==> "title" in bib[i]
    ensures HashPrefix(bib, n, normalize).Ok?
    ensures forall k :: k in HashPrefix(bib, n, normalize).value.entries ==> exists i :: 0 <= i < n && Key(bib[i], normalize) == k
  {
    HashTableRaises(bib, n, normalize);
    if n > 0 {
      HashTableKeysSound(bib, n - 1, normalize);
      var t := HashPrefix(bib, n - 1, normalize).value;
      var last := Key(bib[n - 1], normalize);
      assert HashPrefix(bib, n, normalize).value.entries == t.entries[last := bib[n - 1]];
      forall k | k in t.entries ensures exists i :: 0 <= i < n && Key(bib[i], normalize) == k {
        var i :| 0 <= i < n - 1 && Key(bib[i], normalize) == k;
      }
    }
  }

  /** Every entry's normalised title is a key of the table. */
  lemma {:induction false} HashTableKeysComplete(bib: seq<Fields>, n: nat, normalize: string -> string)
    requires n <= |bib| && forall i :: 0 <= i < n ==> "title" in bib[i]
    ensures HashPrefix(bib, n, normalize).Ok?
    ensures forall i :: 0 <= i < n ==> Key(bib[i], normalize) in HashPrefix(bib, n, normalize).value.entries
  {
    HashTableRaises(bib, n, normalize);
    if n > 0 {
      HashTableKeysComplete(bib, n - 1, normalize);
    }
  }

  /** For each key the entry kept is the last one with that key. */
  lemma {:induction false} HashTableLastWins(bib: seq<Fields>, n: nat, normalize: string -> string, i: nat)
    requires n <= |bib| && forall j :: 0 <= j < n ==> "title" in bib[j]
    requires i < n
    requires forall j :: i < j < n ==> Key(bib[j], normalize) != Key(bib[i], normalize)
    ensures HashPrefix(bib, n, normalize).Ok?
    ensures var t := HashPrefix(bib, n, normalize).value;
      Key(bib[i], normalize) in t.entries && t.entries[Key(bib[i], normalize)] == bib[i]
  {
    HashTableRaises(bib, n, normalize);
    if i < n - 1 {
      HashTableLastWins(bib, n - 1, normalize, i);
    }
  }

  // ---------------------------------------------------------------------
  // set_sub, set_intersect, set_union

  /** The values stored under `ks`, each wrapped as `Paper(x, {})`. */
  function Papers(t: Table, ks: seq<string>): (r: seq<Data.Paper>)
    requires forall k :: k in ks ==> k in t.entries
    ensures |r| == |ks|
    ensures forall i :: 0 <= i < |ks| ==> r[i] == Data.NewPaper(t.entries[ks[i]], map[])
  {
    if ks == [] then [] else Papers(t, ks[..|ks| - 1]) + [Data.NewPaper(t.entries[ks[|ks| - 1]], map[])]
  }

  /** The keys of `a`, in `a`'s order, that `b` does not have. */
  function SubKeys(a: Table, b: Table): seq<string> {
    Select(a.keys, b.entries.Keys, false)
  }

  /** The keys of `a`, in `a`'s order, that `b` has too. */
  function SharedKeys(a: Table, b: Table): seq<string> {
    Select(a.keys, b.entries.Keys, true)
  }

  /** `set_sub(a, b)`. */
  function SetSub(a: Table, b: Table): (r: seq<Data.Paper>)
    requires Valid(a)
    ensures forall i :: 0 <= i < |r| ==> r[i].extraData == map[]
  {
    SelectSpec(a.keys, b.entries.Keys, false);
    Papers(a, SubKeys(a, b))
  }

  /** `set_intersect(a, b)`: `a`'s entries, not `b`'s. */
  function SetIntersect(a: Table, b: Table): (r: seq<Data.Paper>)
    requires Valid(a)
    ensures forall i :: 0 <= i < |r| ==> r[i].extraData == map[]
  {
    SelectSpec(a.keys, b.entries.Keys, true);
    Papers(a, SharedKeys(a, b))
  }

  /** `set_union(a, b)`: every entry of the merged dictionary, in its
      order. */
  function SetUnion(a: Table, b: Table): (r: seq<Data.Paper>)
    requires Valid(a) && Valid(b)
    ensures forall i :: 0 <= i < |r| ==> r[i].extraData == map[]
  {
    MergeTwoDictsSpec(a, b);
    var full := MergeTwoDicts(a, b);
    Papers(full, full.keys)
  }

  /** The difference lists, in `a`'s order and without repeats, exactly
      the keys of `a` missing from `b`, each with `a`'s entry. */
  lemma SetSubSpec(a: Table, b: Table)
    requires Valid(a)
    ensures var ks := SubKeys(a, b);
      && Subsequence(ks, a.keys) && Distinct(ks)
      && (forall k :: k in ks <==> k in a.entries && k !in b.entries)
      && |SetSub(a, b)| == |ks|
      && (forall i :: 0 <= i < |ks| ==> SetSub(a, b)[i].bib == a.entries[ks[i]])
  {
    SelectSpec(a.keys, b.entries.Keys, false);
    SelectIsSubsequence(a.keys, b.entries.Keys, false);
    SelectDistinct(a.keys, b.entries.Keys, false);
  }

  /** The intersection lists, in `a`'s order and without repeats, exactly
      the shared keys, each with `a`'s entry. */
  lemma SetIntersectSpec(a: Table, b: Table)
    requires Valid(a)
    ensures var ks := SharedKeys(a, b);
      && Subsequence(ks, a.keys) && Distinct(ks)
      && (forall k :: k in ks <==> k in a.entries && k in b.entries)
      && |SetIntersect(a, b)| == |ks|
      && (forall i :: 0 <= i < |ks| ==> SetIntersect(a, b)[i].bib == a.entries[ks[i]])
  {
    SelectSpec(a.keys, b.entries.Keys, true);
    SelectIsSubsequence(a.keys, b.entries.Keys, true);
    SelectDistinct(a.keys, b.entries.Keys, true);
  }

  /** Difference and intersection split `a`. */
  lemma SubIntersectSize(a: Table, b: Table)
    requires Valid(a)
    ensures |SetSub(a, b)| + |SetIntersect(a, b)| == |a.keys|
  {
    SelectSplit(a.keys, b.entries.Keys);
  }

  /** The intersection has one paper per shared key. */
  lemma IntersectSize(a: Table, b: Table)
    requires Valid(a)
    ensures |SetIntersect(a, b)| == |a.entries.Keys * b.entries.Keys|
  {
    SelectCount(a.keys, b.entries.Keys);
    ValidKeySet(a);
  }

  /** The union lists `a`'s keys then `b`'s new ones, one paper each. */
  lemma SetUnionKeys(a: Table, b: Table)
    requires Valid(a) && Valid(b)
    ensures MergeTwoDicts(a, b).keys == a.keys + Select(b.keys, a.entries.Keys, false)
    ensures |SetUnion(a, b)| == |MergeTwoDicts(a, b).keys|
  {
    MergeTwoDictsSpec(a, b);
  }

  /** The union's paper for a key of `a` carries `b`'s entry when `b` has
      the key and `a`'s otherwise. */
  lemma SetUnionOld(a: Table, b: Table, i: nat)
    requires Valid(a) && Valid(b) && i < |a.keys|
    ensures i < |SetUnion(a, b)|
    ensures SetUnion(a, b)[i].bib == if a.keys[i] in b.entries then b.entries[a.keys[i]] else a.entries[a.keys[i]]
  {
    MergeTwoDictsSpec(a, b);
    var full := MergeTwoDicts(a, b);
    assert full.keys[i] == a.keys[i];
  }

  /** A paper the union adds after `a`'s carries `b`'s entry for a key of
      `b`. */
  lemma SetUnionNew(a: Table, b: Table, i: nat)
    requires Valid(a) && Valid(b) && |a.keys| <= i < |MergeTwoDicts(a, b).keys|
    ensures i < |SetUnion(a, b)|
    ensures var k := MergeTwoDicts(a, b).keys[i];
      k in b.entries && SetUnion(a, b)[i].bib == b.entries[k]
  {
    MergeTwoDictsSpec(a, b);
    var full := MergeTwoDicts(a, b);
    var extra := Select(b.keys, a.entries.Keys, false);
    SelectSpec(b.keys, a.entries.Keys, false);
    assert full.keys[i] == extra[i - |a.keys|];
  }

  /** The keys `b` adds to `a` are those of `b` outside the intersection. */
  lemma NewKeysSize(a: Table, b: Table)
    requires Valid(a) && Valid(b)
    ensures |Select(b.keys, a.entries.Keys, false)| == |b.keys| - |a.entries.Keys * b.entries.Keys|
  {
    SelectSplit(b.keys, a.entries.Keys);
    SelectCount(b.keys, a.entries.Keys);
    ValidKeySet(b);
    assert b.entries.Keys * a.entries.Keys == a.entries.Keys * b.entries.Keys;
  }

  /** `|a ∪ b| = |a| + |b| - |a ∩ b|`. */
  lemma UnionSize(a: Table, b: Table)
    requires Valid(a) && Valid(b)
    ensures |SetUnion(a, b)| == |a.keys| + |b.keys| - |SetIntersect(a, b)|
  {
    MergeTwoDictsSpec(a, b);
    NewKeysSize(a, b);
    IntersectSize(a, b);
  }
}
