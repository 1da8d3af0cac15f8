/** Sequence helpers: applying a function to every element, and keeping
    the present values of a sequence of options. */
module Lists {
  import opened Wrappers

  /** Applies `f` to every element, keeping the order. */
  function Map<A, B>(f: A -> B, xs: seq<A>): (r: seq<B>)
    ensures |r| == |xs|
    ensures forall i :: 0 <= i < |xs| ==> r[i] == f(xs[i])
  {
    if xs == [] then []
    else
      var n := |xs| - 1;
      assert forall i :: 0 <= i < n ==> xs[..n][i] == xs[i];
      Map(f, xs[..n]) + [f(xs[n])]
  }

  lemma {:induction false} MapAppend<A, B>(f: A -> B, a: seq<A>, b: seq<A>)
    ensures Map(f, a + b) == Map(f, a) + Map(f, b)
  {
  }

  /** The values of the present options, in order. */
  function Somes<T>(xs: seq<Option<T>>): (r: seq<T>)
    ensures |r| <= |xs|
  {
    if xs == [] then []
    else
      var last := xs[|xs| - 1];
      Somes(xs[..|xs| - 1]) + if last.Some? then [last.value] else []
  }

  /** The positions of the present options, in increasing order. */
  function SomeIndices<T>(xs: seq<Option<T>>): (hits: seq<nat>)
    ensures forall k :: 0 <= k < |hits| ==> hits[k] < |xs|
    ensures forall j, k :: 0 <= j < k < |hits| ==> hits[j] < hits[k]
    ensures forall i :: 0 <= i < |xs| ==> (i in hits <==> xs[i].Some?)
  {
    if xs == [] then []
    else
      var n := |xs| - 1;
      var front := SomeIndices(xs[..n]);
      assert forall i :: 0 <= i < n ==> xs[..n][i] == xs[i];
      front + if xs[n].Some? then [n] else []
  }

  /** The k-th value is the one held at the k-th present position. */
  lemma {:induction false} SomesAt<T>(xs: seq<Option<T>>)
    ensures |Somes(xs)| == |SomeIndices(xs)|
    ensures forall k :: 0 <= k < |SomeIndices(xs)| ==> xs[SomeIndices(xs)[k]] == Some(Somes(xs)[k])
  {
    if xs != [] {
      var n := |xs| - 1;
      var front := xs[..n];
      SomesAt(front);
      var values, hits := Somes(xs), SomeIndices(xs);
      assert values == Somes(front) + if xs[n].Some? then [xs[n].value] else [];
      assert hits == SomeIndices(front) + if xs[n].Some? then [n] else [];
      forall k | 0 <= k < |hits|
        ensures xs[hits[k]] == Some(values[k])
      {
        if k < |SomeIndices(front)| {
          assert hits[k] == SomeIndices(front)[k] && values[k] == Somes(front)[k];
          assert front[hits[k]] == xs[hits[k]];
        }
      }
    }
  }

  lemma {:induction false} SomesAppend<T>(a: seq<Option<T>>, b: seq<Option<T>>)
    ensures Somes(a + b) == Somes(a) + Somes(b)
  {
    if b == [] {
      assert a + b == a;
    } else {
      var n := |b| - 1;
      assert (a + b)[..|a + b| - 1] == a + b[..n];
      assert (a + b)[|a + b| - 1] == b[n];
      SomesAppend(a, b[..n]);
    }
  }

  lemma {:induction false} SomesOne<T>(x: Option<T>)
    ensures Somes([x]) == if x.Some? then [x.value] else []
  {
    assert [x][..0] == [];
  }
}
