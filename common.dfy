/** Values shared by every part of the model: optional values, the error
    kinds the services raise, and outcomes of calls that may fail. */
module Common {

  datatype Option<+T> = None | Some(value: T)

  /** The exceptions the services throw, by kind. */
  datatype Error =
    | NotFound      // ResourceNotFoundException: an id or roll number that does not resolve
    | InvalidInput  // IllegalArgumentException: marks above the maximum, a negative limit, a null id;
                    // ConstraintViolationException: a student saved without a password
    | Conflict      // the database rejects a second student with the same roll number
    | NullMarks     // NullPointerException: unboxing the marks of an ungraded result

  /** The value of a call that returns something, or the exception it throws. */
  datatype Result<+T> = Success(value: T) | Failure(error: Error) {
    predicate IsFailure() { Failure? }
    function PropagateFailure<U>(): Result<U>
      requires Failure?
    {
      Failure(error)
    }
    function Extract(): T
      requires Success?
    {
      value
    }
  }

  /** The outcome of a void call. */
  datatype Outcome = Done | Failed(error: Error)

  /** Character.isWhitespace: the ASCII controls tab, line feed, vertical
      tab, form feed, carriage return and the four separators U+001C to
      U+001F, the space separators other than the non-breaking ones
      (U+00A0, U+2007, U+202F), and the line and paragraph separators. */
  predicate IsWhitespace(c: char) {
    || ('\t' <= c <= '\r')
    || ('\U{1C}' <= c <= ' ')
    || c == '\U{1680}'
    || ('\U{2000}' <= c <= '\U{2006}')
    || ('\U{2008}' <= c <= '\U{200A}')
    || c == '\U{2028}' || c == '\U{2029}'
    || c == '\U{205F}' || c == '\U{3000}'
  }

  /** The information separators and the em space are white space; the
      non-breaking spaces are not. */
  lemma {:induction false} WhitespaceCases()
    ensures forall c :: '\U{1C}' <= c <= '\U{1F}' ==> IsWhitespace(c)
    ensures IsWhitespace('\U{2003}') && IsWhitespace('\U{3000}')
    ensures !IsWhitespace('\U{A0}') && !IsWhitespace('\U{2007}') && !IsWhitespace('\U{202F}')
    ensures !IsWhitespace('\U{85}') && !IsWhitespace('\U{1B}') && !IsWhitespace('a')
  {
  }

  /** String.isBlank: empty, or made only of white space. */
  predicate IsBlank(s: string) {
    forall i :: 0 <= i < |s| ==> IsWhitespace(s[i])
  }

  /** The Java guard `s != null && !s.isBlank()`, with null as None. */
  predicate IsPresent(s: Option<string>) {
    s.Some? && !IsBlank(s.value)
  }
}

/** Order-preserving filtering and counting over sequences, as `stream().filter`
    and `stream().filter(...).count()` do. */
module Seqs {
  import opened Common

  /** The position of the first element satisfying `p`, as `stream().filter(p).findFirst()`. */
  function IndexOf<T>(xs: seq<T>, p: T -> bool): (k: Option<nat>)
    ensures k.Some? ==> k.value < |xs| && p(xs[k.value])
    ensures k.Some? ==> forall i :: 0 <= i < k.value ==> !p(xs[i])
    ensures k.None? ==> forall i :: 0 <= i < |xs| ==> !p(xs[i])
  {
    if xs == [] then None
    else if p(xs[0]) then Some(0)
    else match IndexOf(xs[1..], p)
      case None => None
      case Some(k) => Some(k + 1)
  }

  /** The first element satisfying `p` is at `k`. */
  lemma {:induction false} IndexOfIs<T>(xs: seq<T>, p: T -> bool, k: nat)
    requires k < |xs| && p(xs[k])
    requires forall i :: 0 <= i < k ==> !p(xs[i])
    ensures IndexOf(xs, p) == Some(k)
  {
  }

  /** A key larger than every key in `xs`: how an identity column hands out a fresh id. */
  function FreshKey<T>(xs: seq<T>, key: T -> nat): (n: nat)
    ensures forall i :: 0 <= i < |xs| ==> key(xs[i]) < n
  {
    if xs == [] then 1
    else
      var rest := FreshKey(xs[1..], key);
      if key(xs[0]) < rest then rest else key(xs[0]) + 1
  }

  function Filter<T(==)>(xs: seq<T>, p: T -> bool): (r: seq<T>)
    ensures |r| <= |xs|
    ensures forall i :: 0 <= i < |r| ==> r[i] in xs && p(r[i])
    ensures forall i :: 0 <= i < |xs| && p(xs[i]) ==> xs[i] in r
  {
    if xs == [] then [] else (if p(xs[0]) then [xs[0]] else []) + Filter(xs[1..], p)
  }

  function Count<T>(xs: seq<T>, p: T -> bool): (n: nat)
    ensures n <= |xs|
  {
    if xs == [] then 0 else (if p(xs[0]) then 1 else 0) + Count(xs[1..], p)
  }

  lemma {:induction false} FilterAppend<T>(xs: seq<T>, ys: seq<T>, p: T -> bool)
    ensures Filter(xs + ys, p) == Filter(xs, p) + Filter(ys, p)
  {
    if xs == [] {
      assert xs + ys == ys;
    } else {
      assert (xs + ys)[0] == xs[0] && (xs + ys)[1..] == xs[1..] + ys;
      FilterAppend(xs[1..], ys, p);
      calc {
        Filter(xs + ys, p);
        (if p(xs[0]) then [xs[0]] else []) + Filter(xs[1..] + ys, p);
        (if p(xs[0]) then [xs[0]] else []) + (Filter(xs[1..], p) + Filter(ys, p));
      }
    }
  }

  /** The elements after the head of `[a] + xs` are those of `xs`. */
  lemma {:induction false} ConsAt<T>(a: T, xs: seq<T>, i: nat)
    requires 0 < i <= |xs|
    ensures ([a] + xs)[i] == xs[i - 1]
  {
  }

  /** Filtering a sequence with a given head. */
  lemma {:induction false} FilterCons<T>(a: T, xs: seq<T>, p: T -> bool)
    ensures Filter([a] + xs, p) == (if p(a) then [a] else []) + Filter(xs, p)
  {
    var s := [a] + xs;
    assert s[0] == a && s[1..] == xs;
  }

  /** Filtering a sequence with a given last element. */
  lemma {:induction false} FilterSnoc<T>(xs: seq<T>, a: T, p: T -> bool)
    ensures Filter(xs + [a], p) == Filter(xs, p) + (if p(a) then [a] else [])
  {
    FilterAppend(xs, [a], p);
    assert [a][1..] == [];
  }

  /** Filtering with a weaker predicate first changes nothing. */
  lemma {:induction false} FilterNarrow<T>(xs: seq<T>, p: T -> bool, q: T -> bool)
    requires forall x :: q(x) ==> p(x)
    ensures Filter(Filter(xs, p), q) == Filter(xs, q)
  {
    if xs != [] {
      FilterNarrow(xs[1..], p, q);
      var fp := Filter(xs, p);
      if p(xs[0]) {
        assert fp == [xs[0]] + Filter(xs[1..], p);
        assert fp[0] == xs[0] && fp[1..] == Filter(xs[1..], p);
      } else {
        assert fp == Filter(xs[1..], p);
      }
    }
  }

  /** A filter that keeps every element is the identity. */
  lemma {:induction false} FilterAll<T>(xs: seq<T>, p: T -> bool)
    requires forall i :: 0 <= i < |xs| ==> p(xs[i])
    ensures Filter(xs, p) == xs
  {
    if xs != [] {
      FilterAll(xs[1..], p);
    }
  }

  lemma {:induction false} CountMonotone<T>(xs: seq<T>, p: T -> bool, q: T -> bool)
    requires forall x :: p(x) ==> q(x)
    ensures Count(xs, p) <= Count(xs, q)
  {
    if xs != [] {
      CountMonotone(xs[1..], p, q);
    }
  }

  lemma {:induction false} CountIsFilterLength<T>(xs: seq<T>, p: T -> bool)
    ensures Count(xs, p) == |Filter(xs, p)|
  {
    if xs != [] {
      CountIsFilterLength(xs[1..], p);
    }
  }

  predicate NoDuplicates<T(==)>(xs: seq<T>) {
    forall i, j :: 0 <= i < j < |xs| ==> xs[i] != xs[j]
  }

  lemma {:induction false} FilterNoDuplicates<T>(xs: seq<T>, p: T -> bool)
    requires NoDuplicates(xs)
    ensures NoDuplicates(Filter(xs, p))
  {
    if xs != [] {
      FilterNoDuplicates(xs[1..], p);
      var rest := Filter(xs[1..], p);
      if p(xs[0]) {
        assert xs[0] !in xs[1..] by {
          forall k | 0 <= k < |xs[1..]| ensures xs[1..][k] != xs[0] {
            assert xs[1..][k] == xs[k + 1];
          }
        }
        assert xs[0] !in rest;
        var r := [xs[0]] + rest;
        forall i, j | 0 <= i < j < |r| ensures r[i] != r[j] {
          if i == 0 {
            assert r[j] == rest[j - 1];
          } else {
            assert r[i] == rest[i - 1] && r[j] == rest[j - 1];
          }
        }
      }
    }
  }

  /** No two elements share a key. */
  predicate DistinctKeys<T, K(==)>(xs: seq<T>, key: T -> K) {
    forall i, j :: 0 <= i < j < |xs| ==> key(xs[i]) != key(xs[j])
  }

  /** Deleting elements keeps keys distinct. */
  lemma {:induction false} FilterDistinctKeys<T, K>(xs: seq<T>, key: T -> K, p: T -> bool)
    requires DistinctKeys(xs, key)
    ensures DistinctKeys(Filter(xs, p), key)
  {
    if xs != [] {
      var tail := xs[1..];
      assert DistinctKeys(tail, key) by {
        forall i, j | 0 <= i < j < |tail| ensures key(tail[i]) != key(tail[j]) {
          assert tail[i] == xs[i + 1] && tail[j] == xs[j + 1];
        }
      }
      FilterDistinctKeys(tail, key, p);
      var rest := Filter(tail, p);
      if p(xs[0]) {
        var r := [xs[0]] + rest;
        forall i, j | 0 <= i < j < |r| ensures key(r[i]) != key(r[j]) {
          if i == 0 {
            assert r[j] == rest[j - 1] && rest[j - 1] in tail;
            var m :| 0 <= m < |tail| && tail[m] == rest[j - 1];
            assert xs[m + 1] == tail[m];
          } else {
            assert r[i] == rest[i - 1] && r[j] == rest[j - 1];
          }
        }
      }
    }
  }

  /** A sequence without repetitions has as many elements as its set. */
  lemma {:induction false} NoDuplicatesCardinality<T>(xs: seq<T>)
    requires NoDuplicates(xs)
    ensures |set x | x in xs| == |xs|
  {
    if xs != [] {
      var tail := xs[1..];
      assert NoDuplicates(tail) by {
        forall i, j | 0 <= i < j < |tail| ensures tail[i] != tail[j] {
          assert tail[i] == xs[i + 1] && tail[j] == xs[j + 1];
        }
      }
      NoDuplicatesCardinality(tail);
      assert xs[0] !in tail by {
        forall k | 0 <= k < |tail| ensures tail[k] != xs[0] {
          assert tail[k] == xs[k + 1];
        }
      }
      assert (set x | x in xs) == (set x | x in tail) + {xs[0]} by {
        assert xs == [xs[0]] + tail;
      }
    }
  }
}
