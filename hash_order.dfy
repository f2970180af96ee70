/**
 * Ordering nodes by their hash. The editor compares hashes with
 * `localeCompare`, whose collation depends on the locale; here the comparison
 * is an abstract relation `le` on strings ("may come first"), and the results
 * that need it assume `le` is a total order. Sorting is insertion sort: only
 * the resulting order matters, not the algorithm the JavaScript engine uses.
 */
module HashOrder {

  /** `le` is a total order on strings. */
  ghost predicate TotalOrder(le: (string, string) -> bool) {
    && (forall a :: le(a, a))
    && (forall a, b :: le(a, b) && le(b, a) ==> a == b)
    && (forall a, b, c :: le(a, b) && le(b, c) ==> le(a, c))
    && (forall a, b :: le(a, b) || le(b, a))
  }

  /** The keys of `s` ascend under `le`. */
  ghost predicate SortedBy<T>(s: seq<T>, key: T -> string, le: (string, string) -> bool) {
    forall i, j :: 0 <= i < j < |s| ==> le(key(s[i]), key(s[j]))
  }

  /** `x` inserted into `s` before the first element whose key it may precede. */
  function Insert<T(==)>(x: T, s: seq<T>, key: T -> string, le: (string, string) -> bool): (r: seq<T>)
    ensures multiset(r) == multiset(s) + multiset{x}
    ensures TotalOrder(le) && SortedBy(s, key, le) ==> SortedBy(r, key, le)
  {
    if s == [] then [x]
    else if le(key(x), key(s[0])) then
      assert TotalOrder(le) && SortedBy(s, key, le) ==> SortedBy([x] + s, key, le) by {
        if TotalOrder(le) && SortedBy(s, key, le) {
          InsertFront(x, s, key, le);
        }
      }
      [x] + s
    else
      var rest := Insert(x, s[1..], key, le);
      assert s == [s[0]] + s[1..];
      assert TotalOrder(le) && SortedBy(s, key, le) ==> SortedBy([s[0]] + rest, key, le) by {
        if TotalOrder(le) && SortedBy(s, key, le) {
          InsertBehind(x, s, rest, key, le);
        }
      }
      [s[0]] + rest
  }

  lemma InsertFront<T>(x: T, s: seq<T>, key: T -> string, le: (string, string) -> bool)
    requires TotalOrder(le) && SortedBy(s, key, le)
    requires s != [] && le(key(x), key(s[0]))
    ensures SortedBy([x] + s, key, le)
  {
    var r := [x] + s;
    forall i, j | 0 <= i < j < |r| ensures le(key(r[i]), key(r[j])) {
      if i == 0 && j > 1 {
        assert le(key(s[0]), key(s[j - 1]));
      }
    }
  }

  lemma InsertBehind<T>(x: T, s: seq<T>, rest: seq<T>, key: T -> string, le: (string, string) -> bool)
    requires TotalOrder(le) && SortedBy(s, key, le)
    requires s != [] && !le(key(x), key(s[0]))
    requires multiset(rest) == multiset(s[1..]) + multiset{x}
    requires SortedBy(s[1..], key, le) ==> SortedBy(rest, key, le)
    ensures SortedBy([s[0]] + rest, key, le)
  {
    assert SortedBy(s[1..], key, le) by {
      forall i, j | 0 <= i < j < |s[1..]| ensures le(key(s[1..][i]), key(s[1..][j])) {
        assert s[1..][i] == s[i + 1] && s[1..][j] == s[j + 1];
      }
    }
    var r := [s[0]] + rest;
    forall k | 0 <= k < |rest| ensures le(key(s[0]), key(rest[k])) {
      assert rest[k] in multiset(rest);
      if rest[k] == x {
      } else {
        assert rest[k] in multiset(s[1..]);
        var m :| 0 <= m < |s[1..]| && s[1..][m] == rest[k];
        assert s[m + 1] == rest[k];
      }
    }
    forall i, j | 0 <= i < j < |r| ensures le(key(r[i]), key(r[j])) {
      if i == 0 {
        assert r[j] == rest[j - 1];
      } else {
        assert r[i] == rest[i - 1] && r[j] == rest[j - 1];
      }
    }
  }

  /** `s` sorted by key: a permutation of `s` whose keys ascend when `le` is a total order. */
  function SortBy<T(==)>(s: seq<T>, key: T -> string, le: (string, string) -> bool): (r: seq<T>)
    ensures multiset(r) == multiset(s)
    ensures TotalOrder(le) ==> SortedBy(r, key, le)
  {
    if s == [] then []
    else
      assert s == [s[0]] + s[1..];
      Insert(s[0], SortBy(s[1..], key, le), key, le)
  }

  /**
   * The head of a sorted sequence is one of its elements and its key may
   * precede every key of the input.
   */
  lemma {:induction false} HeadIsLeast<T>(s: seq<T>, key: T -> string, le: (string, string) -> bool)
    requires TotalOrder(le) && s != []
    ensures var r := SortBy(s, key, le);
      && |r| == |s|
      && r[0] in s
      && forall y :: y in s ==> le(key(r[0]), key(y))
  {
    var r := SortBy(s, key, le);
    assert |r| == |multiset(r)| == |multiset(s)| == |s|;
    assert r[0] in multiset(s);
    forall y | y in s ensures le(key(r[0]), key(y)) {
      assert y in multiset(r);
      var k :| 0 <= k < |r| && r[k] == y;
    }
  }
}
