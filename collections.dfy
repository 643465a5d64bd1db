/**
 * Swift's collection operations the conversion layer is built from: throwing `map` and
 * `mapValues`, and the element-wise dynamic cast `as?` of arrays and dictionaries.
 */
module Collections {
  import opened Errors

  /** Swift's throwing `map`: applies `f` left to right and rethrows the first failure. */
  function MapAll<A, B>(f: A -> Result<B>, xs: seq<A>): (r: Result<seq<B>>)
    ensures r.Ok? <==> forall i :: 0 <= i < |xs| ==> f(xs[i]).Ok?
    ensures r.Ok? ==> |r.value| == |xs| && forall i :: 0 <= i < |xs| ==> r.value[i] == f(xs[i]).value
  {
    if xs == [] then Ok([])
    else
      var y :- f(xs[0]);
      var ys :- MapAll(f, xs[1..]);
      Ok([y] + ys)
  }

  /** The error `MapAll` rethrows is that of the first element that fails. */
  lemma {:induction false} MapAllFirstFailure<A, B>(f: A -> Result<B>, xs: seq<A>) returns (j: nat)
    requires MapAll(f, xs).Err?
    ensures j < |xs| && f(xs[j]) == Err(MapAll(f, xs).error)
    ensures forall i :: 0 <= i < j ==> f(xs[i]).Ok?
  {
    if f(xs[0]).Err? {
      j := 0;
    } else {
      var k := MapAllFirstFailure(f, xs[1..]);
      j := k + 1;
      assert xs[1..][k] == xs[j];
      forall i | 0 <= i < j ensures f(xs[i]).Ok? {
        if i > 0 { assert xs[1..][i - 1] == xs[i]; }
      }
    }
  }

  /** Where `cast` succeeds it agrees with `f`; then a successful cast of the whole array agrees with mapping `f`. */
  lemma CastAllAgreesWithMapAll<A, B>(cast: A -> Option<B>, f: A -> Result<B>, xs: seq<A>)
    requires forall x :: cast(x).Some? ==> f(x) == Ok(cast(x).value)
    requires CastAll(cast, xs).Some?
    ensures MapAll(f, xs) == Ok(CastAll(cast, xs).value)
  {
    var ys := MapAll(f, xs).value;
    assert |ys| == |CastAll(cast, xs).value|;
  }

  /** `g` undoes `f` wherever `f` succeeds; then mapping `g` undoes mapping `f`. */
  lemma MapAllInverse<A, B>(f: A -> Result<B>, g: B -> Result<A>, xs: seq<A>)
    requires forall x :: f(x).Ok? ==> g(f(x).value) == Ok(x)
    requires MapAll(f, xs).Ok?
    ensures MapAll(g, MapAll(f, xs).value) == Ok(xs)
  {
    var ys := MapAll(f, xs).value;
    assert forall i :: 0 <= i < |ys| ==> g(ys[i]) == Ok(xs[i]);
    assert MapAll(g, ys).value == xs;
  }

  /** Swift's `as? [B]` on an array: succeeds exactly when every element casts. */
  function CastAll<A, B>(cast: A -> Option<B>, xs: seq<A>): (r: Option<seq<B>>)
    ensures r.Some? <==> forall i :: 0 <= i < |xs| ==> cast(xs[i]).Some?
    ensures r.Some? ==> |r.value| == |xs| && forall i :: 0 <= i < |xs| ==> r.value[i] == cast(xs[i]).value
  {
    if xs == [] then Some([])
    else
      match (cast(xs[0]), CastAll(cast, xs[1..]))
      case (Some(y), Some(ys)) => Some([y] + ys)
      case _ => None
  }

  /**
   * Swift's throwing `mapValues`. It keeps every key and maps every value through `f`. When some
   * values fail, Swift rethrows the failure it meets first in its unspecified iteration order; the
   * model fixes that order as the lexicographic order of the keys.
   */
  function MapValues<A, B>(f: A -> Result<B>, m: map<string, A>): (r: Result<map<string, B>>)
    ensures r.Ok? <==> forall k :: k in m ==> f(m[k]).Ok?
    ensures r.Ok? ==> r.value.Keys == m.Keys && forall k :: k in m ==> r.value[k] == f(m[k]).value
    ensures r.Err? ==> exists k :: k in m && f(m[k]) == Err(r.error)
  {
    if forall k :: k in m ==> f(m[k]).Ok? then Ok(map k | k in m :: f(m[k]).value)
    else
      var failing := set k | k in m && f(m[k]).Err?;
      assert failing != {} by {
        var j :| j in m && f(m[j]).Err?;
        assert j in failing;
      }
      var k := Least(failing);
      Err(f(m[k]).error)
  }

  /** Swift's `as? [String: B]` on a dictionary: succeeds exactly when every value casts. */
  function CastValues<A, B>(cast: A -> Option<B>, m: map<string, A>): (r: Option<map<string, B>>)
    ensures r.Some? <==> forall k :: k in m ==> cast(m[k]).Some?
    ensures r.Some? ==> r.value.Keys == m.Keys && forall k :: k in m ==> r.value[k] == cast(m[k]).value
  {
    if forall k :: k in m ==> cast(m[k]).Some? then Some(map k | k in m :: cast(m[k]).value) else None
  }

  lemma CastValuesAgreesWithMapValues<A, B>(cast: A -> Option<B>, f: A -> Result<B>, m: map<string, A>)
    requires forall x :: cast(x).Some? ==> f(x) == Ok(cast(x).value)
    requires CastValues(cast, m).Some?
    ensures MapValues(f, m) == Ok(CastValues(cast, m).value)
  {
    var c := CastValues(cast, m).value;
    assert forall k :: k in m ==> f(m[k]) == Ok(c[k]);
    var r := MapValues(f, m).value;
    assert r.Keys == c.Keys;
    assert forall k :: k in r ==> r[k] == c[k];
    assert r == c;
  }

  lemma MapValuesInverse<A, B>(f: A -> Result<B>, g: B -> Result<A>, m: map<string, A>)
    requires forall x :: f(x).Ok? ==> g(f(x).value) == Ok(x)
    requires MapValues(f, m).Ok?
    ensures MapValues(g, MapValues(f, m).value) == Ok(m)
  {
    var ys := MapValues(f, m).value;
    assert forall k :: k in ys ==> g(ys[k]) == Ok(m[k]);
    var back := MapValues(g, ys).value;
    assert back.Keys == m.Keys;
    assert forall k :: k in back ==> back[k] == m[k];
    assert back == m;
  }

  // ---------------------------------------------------------------------------------------------
  // The lexicographic order on keys, used only to make the failure `MapValues` reports definite.

  /** `a` comes no later than `b` in the lexicographic order of code points. */
  predicate NoLater(a: string, b: string)
  {
    |a| == 0 || (|b| > 0 && (a[0] < b[0] || (a[0] == b[0] && NoLater(a[1..], b[1..]))))
  }

  lemma {:induction false} NoLaterReflexive(a: string)
    ensures NoLater(a, a)
  {
    if |a| > 0 { NoLaterReflexive(a[1..]); }
  }

  lemma {:induction false} NoLaterAntisymmetric(a: string, b: string)
    requires NoLater(a, b) && NoLater(b, a)
    ensures a == b
  {
    if |a| > 0 {
      NoLaterAntisymmetric(a[1..], b[1..]);
      assert a == [a[0]] + a[1..] && b == [b[0]] + b[1..];
    }
  }

  lemma {:induction false} NoLaterTotal(a: string, b: string)
    ensures NoLater(a, b) || NoLater(b, a)
  {
    if |a| > 0 && |b| > 0 && a[0] == b[0] {
      NoLaterTotal(a[1..], b[1..]);
    }
  }

  lemma {:induction false} NoLaterTransitive(a: string, b: string, c: string)
    requires NoLater(a, b) && NoLater(b, c)
    ensures NoLater(a, c)
  {
    if |a| > 0 && a[0] == b[0] && b[0] == c[0] {
      NoLaterTransitive(a[1..], b[1..], c[1..]);
    }
  }

  predicate IsLeast(k: string, keys: set<string>)
  {
    k in keys && forall j :: j in keys ==> NoLater(k, j)
  }

  lemma {:induction false} FindLeast(keys: set<string>) returns (k: string)
    requires keys != {}
    ensures IsLeast(k, keys)
    decreases keys
  {
    var x :| x in keys;
    var rest := keys - {x};
    if rest == {} {
      k := x;
      assert keys == {x};
      NoLaterReflexive(x);
    } else {
      var y := FindLeast(rest);
      NoLaterTotal(x, y);
      if NoLater(x, y) {
        k := x;
        forall j | j in keys ensures NoLater(x, j) {
          if j == x { NoLaterReflexive(x); } else { NoLaterTransitive(x, y, j); }
        }
      } else {
        k := y;
        assert NoLater(y, x);
      }
    }
  }

  lemma LeastExists(keys: set<string>)
    requires keys != {}
    ensures exists k :: IsLeast(k, keys)
  {
    var k := FindLeast(keys);
  }

  lemma LeastUnique(keys: set<string>)
    ensures forall k, k' :: IsLeast(k, keys) && IsLeast(k', keys) ==> k == k'
  {
    forall k, k' | IsLeast(k, keys) && IsLeast(k', keys) ensures k == k' {
      NoLaterAntisymmetric(k, k');
    }
  }

  /** The lexicographically least of a non-empty set of keys. */
  function Least(keys: set<string>): (k: string)
    requires keys != {}
    ensures k in keys && forall j :: j in keys ==> NoLater(k, j)
  {
    LeastExists(keys);
    LeastUnique(keys);
    var k :| IsLeast(k, keys);
    k
  }
}
