/** The meaning of `ORDER BY key DESC`, on which paging, ranking and listing rest. */
module Ordering {
  import opened Common

  ghost predicate StrictlyDescending(s: seq<int>) {
    forall i, j :: 0 <= i < j < |s| ==> s[i] > s[j]
  }

  ghost predicate IsGreatest(x: int, s: set<int>) {
    x in s && forall y :: y in s ==> y <= x
  }

  lemma {:induction false} HasGreatest(s: set<int>)
    requires s != {}
    ensures exists x :: IsGreatest(x, s)
    decreases |s|
  {
    var a := AnyOf(s);
    if s == {a} {
      assert IsGreatest(a, s);
    } else {
      var rest := s - {a};
      HasGreatest(rest);
      var b :| IsGreatest(b, rest);
      var m := if a <= b then b else a;
      assert IsGreatest(m, s) by {
        forall y | y in s ensures y <= m {
          if y != a { assert y in rest; }
        }
      }
    }
  }

  ghost function Greatest(s: set<int>): (x: int)
    requires s != {}
    ensures IsGreatest(x, s)
  {
    HasGreatest(s);
    var x :| IsGreatest(x, s);
    x
  }

  /** The members of `s`, largest first. */
  ghost function Descending(s: set<int>): seq<int>
    decreases |s|
  {
    if s == {} then
      []
    else
      var x := Greatest(s);
      [x] + Descending(s - {x})
  }

  lemma {:induction false} DescendingLists(s: set<int>)
    ensures StrictlyDescending(Descending(s))
    ensures Elements(Descending(s)) == s
    ensures |Descending(s)| == |s|
    decreases |s|
  {
    if s == {} {
    } else {
      var x := Greatest(s);
      DescendingLists(s - {x});
      ConsDescending(x, Descending(s - {x}), s);
    }
  }

  lemma ConsDescending(x: int, rest: seq<int>, s: set<int>)
    requires IsGreatest(x, s)
    requires StrictlyDescending(rest) && Elements(rest) == s - {x}
    ensures StrictlyDescending([x] + rest) && Elements([x] + rest) == s
  {
    forall i | 0 <= i < |rest| ensures rest[i] < x {
      assert rest[i] in Elements(rest);
    }
    assert Elements([x] + rest) == {x} + Elements(rest);
  }

  /** A strictly descending sequence is determined by its set of elements. */
  lemma {:induction false} DescendingUnique(a: seq<int>, b: seq<int>)
    requires StrictlyDescending(a) && StrictlyDescending(b)
    requires Elements(a) == Elements(b)
    ensures a == b
  {
    DistinctLength(a);
    DistinctLength(b);
    if a != [] {
      FirstIsGreatest(a);
      FirstIsGreatest(b);
      TailElements(a);
      TailElements(b);
      DescendingUnique(a[1..], b[1..]);
      assert a == [a[0]] + a[1..] && b == [b[0]] + b[1..];
    }
  }

  lemma FirstIsGreatest(a: seq<int>)
    requires StrictlyDescending(a) && a != []
    ensures IsGreatest(a[0], Elements(a))
  {
  }

  lemma TailElements(a: seq<int>)
    requires StrictlyDescending(a) && a != []
    ensures Elements(a[1..]) == Elements(a) - {a[0]}
  {
    assert a == [a[0]] + a[1..];
    assert forall i :: 0 <= i < |a[1..]| ==> a[1..][i] == a[i + 1];
  }

  /** The element at position `i` has exactly `i` elements above it. */
  lemma RankIsPosition(a: seq<int>, i: nat)
    requires StrictlyDescending(a)
    requires i < |a|
    ensures |set x | x in Elements(a) && x > a[i]| == i
  {
    var above := set x | x in Elements(a) && x > a[i];
    assert above == Elements(a[..i]) by {
      forall x | x in above ensures x in Elements(a[..i]) {
        var k :| 0 <= k < |a| && a[k] == x;
        assert k < i;
        assert a[..i][k] == x;
      }
    }
    DistinctLength(a[..i]);
  }

  /** Cutting a descending sequence after `n` keeps exactly the elements with fewer than `n` above them. */
  lemma PrefixIsTop(a: seq<int>, n: nat, x: int)
    requires StrictlyDescending(a)
    requires n <= |a|
    ensures x in a[..n] <==> x in a && |set y | y in Elements(a) && y > x| < n
  {
    if x in a {
      var i :| 0 <= i < |a| && a[i] == x;
      RankIsPosition(a, i);
      if i < n {
        assert a[..n][i] == x;
      }
    }
  }

  // -- SELECT ... ORDER BY key DESC LIMIT n ------------------------------------------------

  /** `rows` are `n` of the rows `want`, largest key first, ties in any order, and none left out beats one listed. */
  ghost predicate TopRows(key: map<int, int>, want: set<int>, n: nat, rows: seq<int>)
    requires want <= key.Keys
  {
    && Distinct(rows)
    && |rows| == Min(n, |want|)
    && (forall i :: 0 <= i < |rows| ==> rows[i] in want)
    && (forall i, j :: 0 <= i < j < |rows| ==> key[rows[i]] >= key[rows[j]])
    && (forall w, i :: w in want && w !in rows && 0 <= i < |rows| ==> key[w] <= key[rows[i]])
  }

  ghost predicate IsLargest(key: map<int, int>, s: set<int>, x: int)
    requires s <= key.Keys
  {
    x in s && forall y :: y in s ==> key[y] <= key[x]
  }

  lemma {:induction false} HasLargest(key: map<int, int>, s: set<int>)
    requires s <= key.Keys && s != {}
    ensures exists x :: IsLargest(key, s, x)
    decreases |s|
  {
    var a := AnyOf(s);
    if s == {a} {
      assert IsLargest(key, s, a);
    } else {
      HasLargest(key, s - {a});
      var b :| IsLargest(key, s - {a}, b);
      assert IsLargest(key, s, if key[a] <= key[b] then b else a);
    }
  }

  method SelectTop(key: map<int, int>, want: set<int>, n: nat) returns (rows: seq<int>)
    requires want <= key.Keys
    ensures TopRows(key, want, n, rows)
  {
    var todo := want;
    rows := [];
    while todo != {} && |rows| < n
      invariant todo <= want && (forall w :: w in want ==> w in todo || w in rows)
      invariant |want| == |todo| + |rows| && |rows| <= n
      invariant Distinct(rows) && forall i :: 0 <= i < |rows| ==> rows[i] !in todo
      invariant forall i :: 0 <= i < |rows| ==> rows[i] in want
      invariant forall i, j :: 0 <= i < j < |rows| ==> key[rows[i]] >= key[rows[j]]
      invariant forall w, i :: w in todo && 0 <= i < |rows| ==> key[w] <= key[rows[i]]
      decreases |todo|
    {
      HasLargest(key, todo);
      var x :| x in todo && forall y :: y in todo ==> key[y] <= key[x];
      rows := rows + [x];
      todo := todo - {x};
    }
  }

  /** The keys of the listed rows, when no two rows share one, are the top of the descending list of all keys. */
  lemma {:induction false} TopKeysDescend(key: map<int, int>, want: set<int>, n: nat, rows: seq<int>, all: set<int>,
                                          ids: seq<int>)
    requires want <= key.Keys && TopRows(key, want, n, rows)
    requires forall x, y :: x in want && y in want && key[x] == key[y] ==> x == y
    requires forall x :: x in want ==> key[x] in all
    requires forall k :: k in all ==> exists x :: x in want && key[x] == k
    requires |ids| == |rows| && forall i :: 0 <= i < |rows| ==> ids[i] == key[rows[i]]
    ensures |all| == |want|
    ensures |rows| <= |Descending(all)| && ids == Descending(all)[..|rows|]
  {
    InjectiveImage(key, want, all);
    forall i, j | 0 <= i < j < |ids| ensures ids[i] > ids[j] {
      assert rows[i] != rows[j];
    }
    forall k | k in all - Elements(ids) ensures Below(k, ids) {
      var x :| x in want && key[x] == k;
      assert x !in rows by {
        forall j | 0 <= j < |rows| ensures rows[j] != x {
          MemberOf(ids, j);
        }
      }
      forall i | 0 <= i < |ids| ensures k < ids[i] {
        assert rows[i] in want;
      }
    }
    SplitDescending(all, ids);
  }

  ghost predicate Below(k: int, ids: seq<int>) {
    forall i :: 0 <= i < |ids| ==> k < ids[i]
  }

  lemma {:induction false} SplitDescending(all: set<int>, ids: seq<int>)
    requires StrictlyDescending(ids) && Elements(ids) <= all
    requires forall k :: k in all - Elements(ids) ==> Below(k, ids)
    ensures |ids| <= |Descending(all)| && ids == Descending(all)[..|ids|]
  {
    var others := all - Elements(ids);
    var rest := Descending(others);
    DescendingLists(others);
    forall j | 0 <= j < |rest| ensures Below(rest[j], ids) {
      MemberOf(rest, j);
    }
    JoinDescending(ids, rest);
    SplitUnion(Elements(ids), all);
    JoinIs(all, ids, rest);
  }

  lemma MemberOf(s: seq<int>, i: nat)
    requires i < |s|
    ensures s[i] in Elements(s)
  {
  }

  lemma SplitUnion(part: set<int>, all: set<int>)
    requires part <= all
    ensures part + (all - part) == all
  {
  }

  lemma {:induction false} JoinIs(all: set<int>, a: seq<int>, b: seq<int>)
    requires StrictlyDescending(a + b) && Elements(a + b) == all
    ensures |a| <= |Descending(all)| && a == Descending(all)[..|a|]
  {
    DescendingLists(all);
    DescendingUnique(Descending(all), a + b);
  }

  lemma JoinDescending(a: seq<int>, b: seq<int>)
    requires StrictlyDescending(a) && StrictlyDescending(b)
    requires forall j :: 0 <= j < |b| ==> Below(b[j], a)
    ensures StrictlyDescending(a + b)
    ensures Elements(a + b) == Elements(a) + Elements(b)
  {
  }
}
