/** Shared vocabulary: bytes, optional values, the exceptions the library can
    raise, and small sequence helpers used by several caches. */
module Base {

  type byte = x: int | 0 <= x < 256

  type Bytes = seq<byte>

  /** The C# `int.MaxValue`. */
  const INT_MAX: int := 0x7FFF_FFFF

  /** A reference that may be null. */
  datatype Option<+T> = None | Some(value: T)

  /** The .NET exceptions the modelled code can raise. */
  datatype Exception =
    | ArgumentException
    | ArgumentNullException
    | InvalidOperationException
    | KeyNotFoundException
    | NullReferenceException
    | UnauthorizedAccessException
    /** The platform's out-of-range error (`E_BOUNDS`), raised when a buffer
        holds fewer bytes than a read asks for or an array index is out of
        range. */
    | BoundsException

  /** A call that either returns a value or throws. */
  datatype Result<+T> = Ok(value: T) | Throws(error: Exception)

  /** A void call that either completes or throws. */
  datatype Outcome = Done | Raised(error: Exception)

  /** Where the code has an evident defect, which behaviour a member
      follows: the code as written, or what it evidently intends. */
  datatype Variant = AsWritten | Corrected

  /** No element occurs twice. */
  predicate Distinct<T(==)>(s: seq<T>)
  {
    forall i, j :: 0 <= i < j < |s| ==> s[i] != s[j]
  }

  /** The recursion behind `Without`, with no contract of its own, so that
      structural lemmas about it stay cheap. */
  function Filter<T(==)>(s: seq<T>, x: T): seq<T>
  {
    if s == [] then []
    else if s[0] == x then Filter(s[1..], x)
    else [s[0]] + Filter(s[1..], x)
  }

  /** What `Filter` keeps. */
  lemma {:induction false} FilterMembers<T>(s: seq<T>, x: T)
    ensures var r := Filter(s, x);
      && (forall i :: 0 <= i < |r| ==> r[i] in s && r[i] != x)
      && (forall i :: 0 <= i < |s| && s[i] != x ==> s[i] in r)
      && |r| <= |s|
      && (x !in s ==> r == s)
  {
    if s != [] {
      FilterMembers(s[1..], x);
      assert s == [s[0]] + s[1..];
    }
  }

  /** On a duplicate-free sequence `Filter` keeps it duplicate-free and
      drops exactly one element when `x` occurs. */
  lemma {:induction false} FilterDistinct<T>(s: seq<T>, x: T)
    ensures Distinct(s) ==> Distinct(Filter(s, x))
    ensures Distinct(s) && x in s ==> |Filter(s, x)| == |s| - 1
  {
    if s != [] && Distinct(s) {
      var t := s[1..];
      DistinctSuffix(s, 1);
      FilterDistinct(t, x);
      FilterMembers(t, x);
      assert s[0] !in t by {
        forall i | 0 <= i < |t| ensures t[i] != s[0] { assert t[i] == s[i + 1]; }
      }
      var rest := Filter(t, x);
      if s[0] == x {
        assert Filter(s, x) == rest;
      } else {
        var r := [s[0]] + rest;
        assert Filter(s, x) == r;
        assert s[0] !in rest;
        forall i, j | 0 <= i < j < |r| ensures r[i] != r[j] {
          assert r[j] == rest[j - 1];
          if i > 0 { assert r[i] == rest[i - 1]; }
        }
        assert x in s ==> x in t by { assert s == [s[0]] + t; }
      }
    }
  }

  /** `s` with every occurrence of `x` taken out, order kept. */
  function Without<T(==)>(s: seq<T>, x: T): (r: seq<T>)
    ensures forall i :: 0 <= i < |r| ==> r[i] in s && r[i] != x
    ensures forall i :: 0 <= i < |s| && s[i] != x ==> s[i] in r
    ensures |r| <= |s|
    ensures x !in s ==> r == s
    ensures Distinct(s) ==> Distinct(r)
    ensures Distinct(s) && x in s ==> |r| == |s| - 1
  {
    FilterMembers(s, x);
    FilterDistinct(s, x);
    Filter(s, x)
  }

  /** One step of `Without`: the head is dropped exactly when it is `x`. */
  lemma WithoutCons<T>(s: seq<T>, x: T)
    requires |s| > 0
    ensures Without(s, x) == if s[0] == x then Without(s[1..], x) else [s[0]] + Without(s[1..], x)
  {
  }

  /** Removing the first element of a duplicate-free sequence is `Without` of it. */
  lemma {:induction false} WithoutHead<T>(s: seq<T>)
    requires |s| > 0 && Distinct(s)
    ensures Without(s, s[0]) == s[1..]
  {
    assert s[0] !in s[1..] by {
      forall i | 0 <= i < |s[1..]| ensures s[1..][i] != s[0] {
        assert s[1..][i] == s[i + 1];
      }
    }
    FilterMembers(s[1..], s[0]);
  }

  /** Sum of a sequence of integers. */
  function Sum(s: seq<int>): int
  {
    if s == [] then 0 else Sum(s[..|s| - 1]) + s[|s| - 1]
  }

  /** The set of elements of a sequence. */
  function Elems<T>(s: seq<T>): set<T>
  {
    set x | x in s
  }

  /** A duplicate-free sequence has as many distinct elements as positions. */
  lemma {:induction false} DistinctCard<T>(s: seq<T>)
    requires Distinct(s)
    ensures |Elems(s)| == |s|
  {
    if s != [] {
      var t := s[1..];
      assert Distinct(t) by {
        forall i, j | 0 <= i < j < |t| ensures t[i] != t[j] {
          assert t[i] == s[i + 1] && t[j] == s[j + 1];
        }
      }
      DistinctCard(t);
      assert s[0] !in t by {
        forall i | 0 <= i < |t| ensures t[i] != s[0] {
          assert t[i] == s[i + 1];
        }
      }
      assert Elems(s) == Elems(t) + {s[0]} by {
        assert s == [s[0]] + t;
      }
    }
  }

  /** Taking an element out distributes over concatenation. */
  lemma {:induction false} FilterConcat<T>(a: seq<T>, b: seq<T>, x: T)
    ensures Filter(a + b, x) == Filter(a, x) + Filter(b, x)
  {
    if a == [] {
      assert a + b == b;
    } else {
      assert (a + b)[0] == a[0] && (a + b)[1..] == a[1..] + b;
      FilterConcat(a[1..], b, x);
      if a[0] != x {
        assert [a[0]] + (Filter(a[1..], x) + Filter(b, x)) == ([a[0]] + Filter(a[1..], x)) + Filter(b, x);
      }
    }
  }

  /** The same for `Without`. */
  lemma WithoutConcat<T>(a: seq<T>, b: seq<T>, x: T)
    ensures Without(a + b, x) == Without(a, x) + Without(b, x)
  {
    FilterConcat(a, b, x);
  }

  /** Every suffix of a duplicate-free sequence is duplicate-free. */
  lemma DistinctSuffix<T>(s: seq<T>, i: nat)
    requires Distinct(s) && i <= |s|
    ensures Distinct(s[i..])
  {
    forall a, b | 0 <= a < b < |s[i..]| ensures s[i..][a] != s[i..][b] {
      assert s[i..][a] == s[i + a] && s[i..][b] == s[i + b];
    }
  }

  /** Appending to a non-empty sequence keeps its head and appends to its tail. */
  lemma AppendSplit<T>(s: seq<T>, x: T)
    requires |s| > 0
    ensures (s + [x])[0] == s[0] && (s + [x])[1..] == s[1..] + [x]
  {
    assert (s + [x])[1..] == s[1..] + [x];
  }
}
