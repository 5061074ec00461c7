/** Sequence combinators the extractor is built from: keeping the elements that pass a
    test, concatenating per-element sequences, and collecting the results of a fallible
    step as Rust's `collect::<Result<Vec<_>, _>>()` and the `?` operator in a loop do,
    stopping at the first error. */
module Collections {
  import opened Errors

  /** The elements of `s` that satisfy `p`, in order. */
  function Filter<T>(s: seq<T>, p: T -> bool): (r: seq<T>)
    ensures |r| <= |s|
    ensures forall k :: 0 <= k < |r| ==> p(r[k]) && r[k] in s
    ensures forall k :: 0 <= k < |s| && p(s[k]) ==> s[k] in r
  {
    if s == [] then []
    else Filter(s[..|s| - 1], p) + (if p(s[|s| - 1]) then [s[|s| - 1]] else [])
  }

  /** The positions of the elements of `s` that satisfy `p`, in increasing order. */
  function Positions<T>(s: seq<T>, p: T -> bool): (r: seq<nat>)
    ensures forall k :: 0 <= k < |r| ==> r[k] < |s|
    ensures forall k, m :: 0 <= k < m < |r| ==> r[k] < r[m]
    ensures forall i :: 0 <= i < |s| ==> (i in r <==> p(s[i]))
  {
    if s == [] then []
    else
      var n := |s| - 1;
      var r := Positions(s[..n], p);
      var last := if p(s[n]) then [n] else [];
      assert forall i :: 0 <= i < n ==> s[..n][i] == s[i];
      assert n !in r;
      assert forall i :: i in r + last <==> i in r || i in last;
      r + last
  }

  /** The concatenation of `f(x)` over the elements `x` of `s`, in order. */
  function FlatMap<T, U>(s: seq<T>, f: T -> seq<U>): seq<U>
  {
    if s == [] then [] else FlatMap(s[..|s| - 1], f) + f(s[|s| - 1])
  }

  /** Apply the fallible step `f` to every element in order; the first error is the result,
      and with no error the result is every value in order. */
  function CollectAll<T, U>(s: seq<T>, f: T -> Result<U>): (r: Result<seq<U>>)
    ensures r.Ok? <==> forall k :: 0 <= k < |s| ==> f(s[k]).Ok?
    ensures r.Ok? ==> |r.value| == |s| && forall k :: 0 <= k < |s| ==> f(s[k]) == Ok(r.value[k])
    ensures r.Err? ==> exists i :: 0 <= i < |s| && f(s[i]) == Err(r.error) && forall k :: 0 <= k < i ==> f(s[k]).Ok?
  {
    if s == [] then Ok([])
    else
      match CollectAll(s[..|s| - 1], f)
      case Err(e) =>
        assert forall k :: 0 <= k < |s| - 1 ==> s[..|s| - 1][k] == s[k];
        Err(e)
      case Ok(vs) =>
        match f(s[|s| - 1])
        case Err(e) => Err(e)
        case Ok(v) => Ok(vs + [v])
  }

  lemma {:induction false} FilterAppend<T>(a: seq<T>, b: seq<T>, p: T -> bool)
    ensures Filter(a + b, p) == Filter(a, p) + Filter(b, p)
    decreases |b|
  {
    if b != [] {
      assert (a + b)[..|a + b| - 1] == a + b[..|b| - 1];
      FilterAppend(a, b[..|b| - 1], p);
    } else {
      assert a + b == a;
    }
  }

  lemma {:induction false} FlatMapAppend<T, U>(a: seq<T>, b: seq<T>, f: T -> seq<U>)
    ensures FlatMap(a + b, f) == FlatMap(a, f) + FlatMap(b, f)
    decreases |b|
  {
    if b != [] {
      assert (a + b)[..|a + b| - 1] == a + b[..|b| - 1];
      FlatMapAppend(a, b[..|b| - 1], f);
    } else {
      assert a + b == a;
    }
  }

  /** Once an error has been met, nothing after it changes the result. */
  lemma {:induction false} CollectAllSticky<T, U>(a: seq<T>, b: seq<T>, f: T -> Result<U>)
    requires CollectAll(a, f).Err?
    ensures CollectAll(a + b, f) == CollectAll(a, f)
    decreases |b|
  {
    if b != [] {
      assert (a + b)[..|a + b| - 1] == a + b[..|b| - 1];
      CollectAllSticky(a, b[..|b| - 1], f);
    } else {
      assert a + b == a;
    }
  }

  /** Filtering a sequence cut in two filters each part. */
  lemma FilterSplit<T>(s: seq<T>, j: nat, p: T -> bool)
    requires j <= |s|
    ensures Filter(s, p) == Filter(s[..j], p) + Filter(s[j..], p)
  {
    assert s == s[..j] + s[j..];
    FilterAppend(s[..j], s[j..], p);
  }

  /** Filtering splits around a kept element. */
  lemma FilterAround<T>(s: seq<T>, k: nat, p: T -> bool)
    requires k < |s| && p(s[k])
    ensures Filter(s, p) == Filter(s[..k], p) + [s[k]] + Filter(s[k + 1..], p)
  {
    FilterSnoc(s, k, p);
    FilterSplit(s, k + 1, p);
  }

  /** Concatenating over a sequence cut in two concatenates over each part. */
  lemma FlatMapSplit<T, U>(s: seq<T>, j: nat, f: T -> seq<U>)
    requires j <= |s|
    ensures FlatMap(s, f) == FlatMap(s[..j], f) + FlatMap(s[j..], f)
  {
    assert s == s[..j] + s[j..];
    FlatMapAppend(s[..j], s[j..], f);
  }

  lemma FlatMapSnoc<T, U>(s: seq<T>, k: nat, f: T -> seq<U>)
    requires k < |s|
    ensures FlatMap(s[..k + 1], f) == FlatMap(s[..k], f) + f(s[k])
  {
    assert s[..k + 1][..k] == s[..k];
  }

  /** Concatenating per-element sequences splits around any element. */
  lemma FlatMapAround<T, U>(s: seq<T>, k: nat, f: T -> seq<U>)
    requires k < |s|
    ensures FlatMap(s, f) == FlatMap(s[..k], f) + f(s[k]) + FlatMap(s[k + 1..], f)
  {
    FlatMapSnoc(s, k, f);
    FlatMapSplit(s, k + 1, f);
  }

  /** The first failing element decides the result, whatever follows it. */
  lemma CollectAllStopsAt<T, U>(a: seq<T>, x: T, b: seq<T>, f: T -> Result<U>)
    requires CollectAll(a, f).Ok? && f(x).Err?
    ensures CollectAll(a + [x] + b, f) == Err(f(x).error)
  {
    assert (a + [x])[..|a|] == a;
    CollectAllSticky(a + [x], b, f);
  }

  /** The element at `i` fails and none before it does: its error is the result. */
  lemma CollectAllFirstError<T, U>(s: seq<T>, i: nat, f: T -> Result<U>)
    requires i < |s| && f(s[i]).Err?
    requires forall k :: 0 <= k < i ==> f(s[k]).Ok?
    ensures CollectAll(s, f) == Err(f(s[i]).error)
  {
    var j :| 0 <= j < |s| && f(s[j]) == Err(CollectAll(s, f).error) && forall k :: 0 <= k < j ==> f(s[k]).Ok?;
  }

  /** The position of the error a failed collection reports: the first failing element. */
  lemma FirstError<T, U>(s: seq<T>, f: T -> Result<U>) returns (i: nat)
    requires CollectAll(s, f).Err?
    ensures i < |s| && f(s[i]) == Err(CollectAll(s, f).error)
    ensures forall k :: 0 <= k < i ==> f(s[k]).Ok?
  {
    i :| 0 <= i < |s| && f(s[i]) == Err(CollectAll(s, f).error) && forall k :: 0 <= k < i ==> f(s[k]).Ok?;
  }

  /** Filtering one more element of a prefix keeps or drops just that element. */
  lemma FilterSnoc<T>(s: seq<T>, k: nat, p: T -> bool)
    requires k < |s|
    ensures Filter(s[..k + 1], p) == Filter(s[..k], p) + (if p(s[k]) then [s[k]] else [])
  {
    assert s[..k + 1][..k] == s[..k];
  }

  /** Collecting one more element after a run without error. */
  lemma CollectAllSnoc<T, U>(a: seq<T>, x: T, f: T -> Result<U>)
    requires CollectAll(a, f).Ok?
    ensures CollectAll(a + [x], f) == if f(x).Ok? then Ok(CollectAll(a, f).value + [f(x).value]) else Err(f(x).error)
  {
    assert (a + [x])[..|a|] == a;
  }

  /** Collecting a concatenation whose first part has no error: the values join, or the
      second part's first error is the result. */
  lemma {:induction false} CollectAllAppend<T, U>(a: seq<T>, b: seq<T>, f: T -> Result<U>)
    requires CollectAll(a, f).Ok?
    ensures CollectAll(a + b, f) == if CollectAll(b, f).Ok? then Ok(CollectAll(a, f).value + CollectAll(b, f).value)
                                    else Err(CollectAll(b, f).error)
    decreases |b|
  {
    if b == [] {
      assert a + b == a && CollectAll(b, f) == Ok([]);
      assert CollectAll(a, f).value + [] == CollectAll(a, f).value;
    } else {
      var b', x := b[..|b| - 1], b[|b| - 1];
      assert (a + b)[..|a + b| - 1] == a + b' && (a + b)[|a + b| - 1] == x;
      CollectAllAppend(a, b', f);
      if CollectAll(b', f).Ok? && f(x).Ok? {
        assert CollectAll(a, f).value + CollectAll(b, f).value
            == (CollectAll(a, f).value + CollectAll(b', f).value) + [f(x).value];
      }
    }
  }

  /** Collecting over the kept elements: once the kept elements before position `k` have
      no error and the kept element at `k` fails, that failure is the result. */
  lemma CollectFilteredStops<T, U>(s: seq<T>, k: nat, p: T -> bool, f: T -> Result<U>)
    requires k < |s| && p(s[k])
    requires CollectAll(Filter(s[..k], p), f).Ok? && f(s[k]).Err?
    ensures CollectAll(Filter(s, p), f) == Err(f(s[k]).error)
  {
    FilterAround(s, k, p);
    CollectAllStopsAt(Filter(s[..k], p), s[k], Filter(s[k + 1..], p), f);
  }

  /** Collecting over a concatenation: once the parts before position `i` have no error
      and the part of the element at `i` fails, that failure is the result. */
  lemma CollectFlatStops<T, U, V>(s: seq<T>, i: nat, g: T -> seq<U>, f: U -> Result<V>)
    requires i < |s|
    requires CollectAll(FlatMap(s[..i], g), f).Ok? && CollectAll(g(s[i]), f).Err?
    ensures CollectAll(FlatMap(s, g), f) == CollectAll(g(s[i]), f)
  {
    FlatMapAround(s, i, g);
    CollectAllAppend(FlatMap(s[..i], g), g(s[i]), f);
    CollectAllSticky(FlatMap(s[..i], g) + g(s[i]), FlatMap(s[i + 1..], g), f);
  }
}
