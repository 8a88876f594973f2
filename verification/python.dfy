/** Python built-in behaviour the generator relies on: the exceptions it can
    raise, negative list indexing and the `[:n]` slice. */
module Python {

  /** The exceptions the generator can raise under its documented inputs. */
  datatype Exception =
    | KeyError(key: string)   // a layer directory missing from the label dictionary
    | IndexError              // a list index outside the list

  /** The outcome of a computation that may raise. */
  datatype Result<+T> = Ok(value: T) | Raised(exc: Exception)

  datatype Option<+T> = None | Some(value: T)

  /** `s[i]` for a Python list: negative indices count from the end,
      anything else outside the list raises IndexError (None here). */
  function PyIndex<T>(s: seq<T>, i: int): (r: Option<T>)
    ensures -|s| <= i < |s| <==> r.Some?
    ensures 0 <= i < |s| ==> r == Some(s[i])
    ensures -|s| <= i < 0 ==> r == Some(s[|s| + i])
  {
    if 0 <= i < |s| then Some(s[i])
    else if -|s| <= i < 0 then Some(s[|s| + i])
    else None
  }

  /** `s[:n]` for a Python list: a non-negative n keeps the first n items
      (all of them when n exceeds the length); a negative n drops the
      last -n items (everything when -n exceeds the length). */
  function PyTake<T>(s: seq<T>, n: int): (r: seq<T>)
    ensures |r| == if n >= 0 then Min(n, |s|) else Max(0, |s| + n)
    ensures r <= s
  {
    if n >= 0 then s[..Min(n, |s|)] else s[..Max(0, |s| + n)]
  }

  function Min(a: int, b: int): int { if a <= b then a else b }

  function Max(a: int, b: int): int { if a >= b then a else b }

  /** No item occurs twice. */
  predicate Distinct<T(==)>(s: seq<T>)
  {
    forall i, j :: 0 <= i < j < |s| ==> s[i] != s[j]
  }

  /** Putting an item that does not occur in front of a list without
      repeats keeps it so. */
  lemma ConsDistinct<T>(h: T, r: seq<T>)
    requires Distinct(r) && h !in r
    ensures Distinct([h] + r)
  {
    var s := [h] + r;
    forall i, j | 0 <= i < j < |s|
      ensures s[i] != s[j]
    {
      assert s[j] == r[j - 1];
    }
  }
}
