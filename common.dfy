/** Small shared vocabulary: optional values (a JSON null, a SQL NULL, a
    pandas NaN), opaque floating-point values, and order-preserving filters
    over record lists. */
module Common {

  datatype Option<T> = None | Some(value: T)

  /** A floating-point column value. The job never computes with these; it
      only moves them and compares them for equality, so any type with
      equality will do. */
  type Float = real

  /** The elements of s that satisfy p, in their order in s. */
  function Filter<T>(p: T -> bool, s: seq<T>): (r: seq<T>)
    ensures |r| <= |s|
    ensures forall i :: 0 <= i < |r| ==> p(r[i]) && r[i] in s
    decreases |s|
  {
    if s == [] then []
    else if p(s[0]) then [s[0]] + Filter(p, s[1..])
    else Filter(p, s[1..])
  }

  /** An element survives the filter exactly when it is in s and satisfies p. */
  lemma {:induction false} FilterMember<T>(p: T -> bool, s: seq<T>, x: T)
    ensures x in Filter(p, s) <==> x in s && p(x)
    decreases |s|
  {
    if s != [] {
      FilterMember(p, s[1..], x);
      assert s == [s[0]] + s[1..];
    }
  }

  /** Filtering distributes over concatenation; in particular survivors keep
      their relative order. */
  lemma {:induction false} FilterAppend<T>(p: T -> bool, a: seq<T>, b: seq<T>)
    ensures Filter(p, a + b) == Filter(p, a) + Filter(p, b)
    decreases |a|
  {
    if a == [] {
      assert a + b == b;
    } else {
      assert (a + b)[1..] == a[1..] + b;
      FilterAppend(p, a[1..], b);
    }
  }

  /** What the filter keeps and what it drops add up to the input: the
      number of dropped elements is exactly the number of elements that fail
      p (those that satisfy its complement q), and nothing is duplicated or
      invented. */
  lemma {:induction false} FilterPartition<T>(p: T -> bool, q: T -> bool, s: seq<T>)
    requires forall x :: q(x) == !p(x)
    ensures multiset(Filter(p, s)) + multiset(Filter(q, s)) == multiset(s)
    ensures |Filter(p, s)| + |Filter(q, s)| == |s|
    decreases |s|
  {
    if s != [] {
      FilterPartition(p, q, s[1..]);
      assert s == [s[0]] + s[1..];
    }
  }

  /** The least position below n that is in s, if there is one. */
  function FirstIn(s: set<nat>, n: nat): (r: Option<nat>)
    ensures r.Some? ==> r.value < n && r.value in s
    ensures forall i :: 0 <= i < n && i in s ==> r.Some? && r.value <= i
    decreases n
  {
    if n == 0 then None
    else if FirstIn(s, n - 1).Some? then FirstIn(s, n - 1)
    else if n - 1 in s then Some(n - 1)
    else None
  }
}
