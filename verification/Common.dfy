/** Value types shared by the model of every crate. */
module Common {

  datatype Option<+T> = None | Some(value: T)

  const I64_MIN: int := -0x8000_0000_0000_0000
  const I64_MAX: int := 0x7FFF_FFFF_FFFF_FFFF

  type i64 = n: int | -0x8000_0000_0000_0000 <= n <= 0x7FFF_FFFF_FFFF_FFFF

  type byte = n: int | 0 <= n < 256

  function Min(a: int, b: int): int {
    if a <= b then a else b
  }

  function Max(a: int, b: int): int {
    if a <= b then b else a
  }

  ghost function Elements<T>(s: seq<T>): set<T> {
    set x | x in s
  }

  ghost predicate Distinct<T>(s: seq<T>) {
    forall i, j :: 0 <= i < j < |s| ==> s[i] != s[j]
  }

  /** A duplicate-free sequence is as long as its set of elements. */
  lemma {:induction false} DistinctLength<T>(s: seq<T>)
    requires Distinct(s)
    ensures |Elements(s)| == |s|
  {
    if s == [] {
    } else {
      var init, last := s[..|s| - 1], s[|s| - 1];
      DistinctLength(init);
      assert s == init + [last];
      assert Elements(s) == Elements(init) + {last};
    }
  }

  ghost function AnyOf<T>(s: set<T>): T
    requires s != {}
    ensures AnyOf(s) in s
  {
    var x :| x in s;
    x
  }

  lemma EmptyIfNone(t: set<int>)
    requires forall b :: b !in t
    ensures t == {}
  {
    if t != {} {
      var b := AnyOf(t);
    }
  }

  /** An injective image of a finite set has as many members as the set. */
  lemma {:induction false} InjectiveImage(f: map<int, int>, s: set<int>, t: set<int>)
    requires s <= f.Keys
    requires forall x, y :: x in s && y in s && f[x] == f[y] ==> x == y
    requires forall x :: x in s ==> f[x] in t
    requires forall b :: b in t ==> exists x :: x in s && f[x] == b
    ensures |s| == |t|
    decreases |s|
  {
    if s == {} {
      EmptyIfNone(t);
    } else {
      var a := AnyOf(s);
      forall b | b in t - {f[a]} ensures exists x :: x in s - {a} && f[x] == b {
        var x :| x in s && f[x] == b;
        assert x in s - {a};
      }
      InjectiveImage(f, s - {a}, t - {f[a]});
    }
  }

  lemma SubsetSize<T>(a: set<T>, b: set<T>)
    requires a <= b
    ensures |a| <= |b|
    ensures |a| == |b| ==> a == b
  {
    assert b == a + (b - a);
    assert |b| == |a| + |b - a|;
  }
}
