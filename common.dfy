/** Values shared by the whole model: optional values, the exceptions the
    Python code can raise, dynamically typed values held in auxiliary
    dictionaries, bibliographic field dictionaries and parsed authors. */
module Common {

  datatype Option<T> = None | Some(value: T)

  /** The Python exceptions the modelled code raises. */
  datatype Error =
    | KeyError(key: string)
    | IndexError
    | AttributeError(name: string)
    | TypeError
    | ValueError(message: string)
    /** What langdetect's `detect` raises on a text with no features. */
    | LangDetectException(message: string)

  datatype Result<T> = Ok(value: T) | Err(error: Error)

  /** A value of an auxiliary (`extra_data`) dictionary; these hold strings,
      flags, numbers, lists and nested dictionaries alike. */
  datatype Value =
    | VNone
    | VStr(s: string)
    | VBool(b: bool)
    | VInt(i: int)
    | VList(items: seq<Value>)
    | VDict(entries: map<string, Value>)

  /** Python truthiness. */
  predicate Truthy(v: Value) {
    match v
    case VNone => false
    case VStr(s) => s != ""
    case VBool(b) => b
    case VInt(i) => i != 0
    case VList(items) => items != []
    case VDict(entries) => entries != map[]
  }

  /** A bibliographic entry's field dictionary (`bib`); an absent field is
      an absent key. */
  type Fields = map<string, string>

  /** `bib.get(key)`. */
  function Get(bib: Fields, key: string): Option<string> {
    if key in bib then Some(bib[key]) else None
  }

  /** `bib.get(key, default)`. */
  function GetOr(bib: Fields, key: string, default: string): string {
    if key in bib then bib[key] else default
  }

  /** `bool(bib.get(key))`. */
  predicate HasValue(bib: Fields, key: string) {
    key in bib && bib[key] != ""
  }

  /** A field dictionary that the code updates in place and passes around by
      reference. */
  class Bib {
    var fields: Fields

    constructor (fields: Fields)
      ensures this.fields == fields
    {
      this.fields := fields;
    }
  }

  /** One parsed author: the `given`, `family` and `middle` keys of the
      author dictionaries, each possibly absent. */
  datatype Author = Author(given: Option<string>, family: Option<string>, middle: Option<string>)

  /** `author.get(key, '')`. */
  function OrEmpty(o: Option<string>): string {
    if o.Some? then o.value else ""
  }

  /** `xs` lists some of the elements of `ys`, in the order `ys` has them. */
  predicate Subsequence<T(==)>(xs: seq<T>, ys: seq<T>)
    decreases |ys|
  {
    || xs == []
    || (&& ys != []
        && (|| (xs[|xs| - 1] == ys[|ys| - 1] && Subsequence(xs[..|xs| - 1], ys[..|ys| - 1]))
            || Subsequence(xs, ys[..|ys| - 1])))
  }

  /** A common last element extends a subsequence. */
  lemma SubsequenceSnoc<T>(xs: seq<T>, ys: seq<T>, y: T)
    requires Subsequence(xs, ys)
    ensures Subsequence(xs + [y], ys + [y])
  {
    assert (xs + [y])[..|xs|] == xs && (ys + [y])[..|ys|] == ys;
  }

  /** An element after the end of `ys` may be skipped. */
  lemma SubsequenceExtend<T>(xs: seq<T>, ys: seq<T>, y: T)
    requires Subsequence(xs, ys)
    ensures Subsequence(xs, ys + [y])
  {
    assert (ys + [y])[..|ys|] == ys;
  }

  /** Regrouping a concatenation of four sequences. */
  lemma ConcatRegroup<T>(a: seq<T>, b: seq<T>, c: seq<T>, d: seq<T>)
    ensures a + (b + c + d) == (a + b) + c + d
  {
  }
}
