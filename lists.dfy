/** Sequence operations standing for the JavaScript array methods the game uses
    (`filter`, `map`, `flat`, `reverse` and the `cartesianProduct` helper). */
module Lists {

  /** `xs.filter(p)`: keeps, in order, the elements satisfying `p`. */
  function Filter<T(!new)>(xs: seq<T>, p: T -> bool): (r: seq<T>)
    ensures |r| <= |xs|
    ensures forall x :: x in r <==> x in xs && p(x)
  {
    if xs == [] then []
    else
      assert xs == [xs[0]] + xs[1..];
      (if p(xs[0]) then [xs[0]] else []) + Filter(xs[1..], p)
  }

  /** `xs.map(f)` */
  function Map<T, U>(xs: seq<T>, f: T -> U): (r: seq<U>)
    ensures |r| == |xs|
    ensures forall i :: 0 <= i < |xs| ==> r[i] == f(xs[i])
  {
    seq(|xs|, i requires 0 <= i < |xs| => f(xs[i]))
  }

  /** `xss.flat()`: concatenation of the inner sequences, in order. */
  function Flatten<T(!new)>(xss: seq<seq<T>>): (r: seq<T>)
    ensures forall x :: x in r <==> exists i :: 0 <= i < |xss| && x in xss[i]
  {
    if xss == [] then []
    else
      var rest := Flatten(xss[1..]);
      assert forall x :: (exists i :: 1 <= i < |xss| && x in xss[i]) <==> x in rest by {
        forall x ensures (exists i :: 1 <= i < |xss| && x in xss[i]) <==> x in rest {
          if x in rest {
            var i :| 0 <= i < |xss[1..]| && x in xss[1..][i];
            assert x in xss[i + 1];
          }
        }
      }
      xss[0] + rest
  }

  /** `xs.reverse()` */
  function Reverse<T>(xs: seq<T>): (r: seq<T>)
    ensures |r| == |xs|
    ensures forall i :: 0 <= i < |xs| ==> r[i] == xs[|xs| - 1 - i]
  {
    if xs == [] then [] else Reverse(xs[1..]) + [xs[0]]
  }

  lemma ReverseMembership<T>(xs: seq<T>)
    ensures forall x :: x in Reverse(xs) <==> x in xs
  {
    var r := Reverse(xs);
    forall x | x in xs ensures x in r {
      var i :| 0 <= i < |xs| && xs[i] == x;
      assert r[|xs| - 1 - i] == x;
    }
  }

  /** `cartesianProduct(o, inner)`: every element of `inner` paired with `o`. */
  function PairWith<A(!new), B(!new)>(o: A, inner: seq<B>): (r: seq<(B, A)>)
    ensures |r| == |inner|
    ensures forall x, o' :: (x, o') in r <==> x in inner && o' == o
  {
    var r := seq(|inner|, i requires 0 <= i < |inner| => (inner[i], o));
    assert forall x | x in inner :: (x, o) in r by {
      forall x | x in inner ensures (x, o) in r {
        var i :| 0 <= i < |inner| && inner[i] == x;
        assert r[i] == (x, o);
      }
    }
    r
  }

  /** `outer.map(o => cartesianProduct(o, inner)).flat()`: all pairs `(x, o)`
      with `o` from `outer` and `x` from `inner`, outer element by outer element. */
  function Product<A(!new), B(!new)>(outer: seq<A>, inner: seq<B>): (r: seq<(B, A)>)
    ensures forall x, o :: (x, o) in r <==> x in inner && o in outer
  {
    if outer == [] then []
    else
      assert outer == [outer[0]] + outer[1..];
      PairWith(outer[0], inner) + Product(outer[1..], inner)
  }

  /** The first components of a sequence of pairs (`pairs.map(([a, _]) => a)`). */
  function Firsts<A(!new), B(!new)>(pairs: seq<(A, B)>): (r: seq<A>)
    ensures |r| == |pairs|
    ensures forall a :: a in r <==> exists b :: (a, b) in pairs
  {
    if pairs == [] then []
    else
      assert pairs == [pairs[0]] + pairs[1..];
      [pairs[0].0] + Firsts(pairs[1..])
  }

  /** The second components of a sequence of pairs (`pairs.map(([_, b]) => b)`). */
  function Seconds<A(!new), B(!new)>(pairs: seq<(A, B)>): (r: seq<B>)
    ensures |r| == |pairs|
    ensures forall b :: b in r <==> exists a :: (a, b) in pairs
  {
    if pairs == [] then []
    else
      assert pairs == [pairs[0]] + pairs[1..];
      [pairs[0].1] + Seconds(pairs[1..])
  }
}
