/** A strict total order on integer sequences (lexicographic, a proper prefix
    first) and a sort of a finite set by such keys. Each SQL `ORDER BY` of the
    store is modelled by encoding a row's sort columns as one such key. */
module Ordering {

  /** `a` sorts strictly before `b`. */
  predicate LexLt(a: seq<int>, b: seq<int>)
    decreases |a|
  {
    |b| > 0 && (|a| == 0 || a[0] < b[0] || (a[0] == b[0] && LexLt(a[1..], b[1..])))
  }

  lemma {:induction false} LexLtIrreflexive(a: seq<int>)
    ensures !LexLt(a, a)
    decreases |a|
  {
    if |a| > 0 {
      LexLtIrreflexive(a[1..]);
    }
  }

  lemma {:induction false} LexLtTransitive(a: seq<int>, b: seq<int>, c: seq<int>)
    requires LexLt(a, b) && LexLt(b, c)
    ensures LexLt(a, c)
    decreases |a|
  {
    if |a| > 0 && a[0] == b[0] && b[0] == c[0] {
      LexLtTransitive(a[1..], b[1..], c[1..]);
    }
  }

  lemma {:induction false} LexLtTotal(a: seq<int>, b: seq<int>)
    ensures a == b || LexLt(a, b) || LexLt(b, a)
    decreases |a|
  {
    if |a| > 0 && |b| > 0 && a[0] == b[0] {
      LexLtTotal(a[1..], b[1..]);
      if a[1..] == b[1..] {
        assert a == [a[0]] + a[1..] && b == [b[0]] + b[1..];
      }
    }
  }

  /** `r` lists its elements in strictly increasing key order (so without repeats). */
  predicate SortedBy<T>(r: seq<T>, key: T -> seq<int>) {
    forall i, j | 0 <= i < j < |r| :: LexLt(key(r[i]), key(r[j]))
  }

  /** Inserts `x` into `r` before the first element whose key is larger. */
  function InsertByKey<T>(x: T, r: seq<T>, key: T -> seq<int>): (r': seq<T>)
    ensures |r'| == |r| + 1
    ensures multiset(r') == multiset(r) + multiset{x}
  {
    if r == [] || LexLt(key(x), key(r[0])) then [x] + r
    else
      assert r == [r[0]] + r[1..];
      [r[0]] + InsertByKey(x, r[1..], key)
  }

  /** An element below every element of a sorted list can go in front. */
  lemma ConsSorted<T>(h: T, tail: seq<T>, key: T -> seq<int>)
    requires SortedBy(tail, key)
    requires forall k | 0 <= k < |tail| :: LexLt(key(h), key(tail[k]))
    ensures SortedBy([h] + tail, key)
  {
    var r := [h] + tail;
    forall i, j | 0 <= i < j < |r| ensures LexLt(key(r[i]), key(r[j])) {
      if i == 0 {
        assert r[j] == tail[j - 1];
      } else {
        assert r[i] == tail[i - 1] && r[j] == tail[j - 1];
      }
    }
  }

  /** A bound below `x` and below every element of `r` stays below every
      element once `x` is inserted. */
  lemma {:induction false} InsertByKeyAbove<T>(x: T, r: seq<T>, key: T -> seq<int>, lo: seq<int>)
    requires LexLt(lo, key(x))
    requires forall i | 0 <= i < |r| :: LexLt(lo, key(r[i]))
    ensures forall k | 0 <= k < |InsertByKey(x, r, key)| :: LexLt(lo, key(InsertByKey(x, r, key)[k]))
  {
    var r' := InsertByKey(x, r, key);
    if r == [] || LexLt(key(x), key(r[0])) {
      assert forall k | 1 <= k < |r'| :: r'[k] == r[k - 1];
    } else {
      assert forall i | 0 <= i < |r[1..]| :: r[1..][i] == r[i + 1];
      InsertByKeyAbove(x, r[1..], key, lo);
      assert forall k | 1 <= k < |r'| :: r'[k] == InsertByKey(x, r[1..], key)[k - 1];
    }
  }

  /** Inserting an element whose key is new keeps a sorted list sorted. */
  lemma {:induction false} InsertByKeySorted<T>(x: T, r: seq<T>, key: T -> seq<int>)
    requires SortedBy(r, key)
    requires forall i | 0 <= i < |r| :: key(r[i]) != key(x)
    ensures SortedBy(InsertByKey(x, r, key), key)
  {
    if r == [] {
    } else if LexLt(key(x), key(r[0])) {
      forall k | 0 <= k < |r| ensures LexLt(key(x), key(r[k])) {
        if k > 0 {
          LexLtTransitive(key(x), key(r[0]), key(r[k]));
        }
      }
      ConsSorted(x, r, key);
    } else {
      LexLtTotal(key(x), key(r[0]));
      var rest := r[1..];
      assert forall i | 0 <= i < |rest| :: rest[i] == r[i + 1];
      InsertByKeySorted(x, rest, key);
      InsertByKeyAbove(x, rest, key, key(r[0]));
      ConsSorted(r[0], InsertByKey(x, rest, key), key);
    }
  }

  /** Lists a finite set in increasing key order; keys must tell the set's
      elements apart. */
  method SortByKey<T(==)>(s: set<T>, key: T -> seq<int>) returns (r: seq<T>)
    requires forall x, y | x in s && y in s && key(x) == key(y) :: x == y
    ensures SortedBy(r, key)
    ensures |r| == |s|
    ensures forall x :: x in r <==> x in s
  {
    r := [];
    var rest := s;
    while rest != {}
      invariant rest <= s
      invariant forall x :: x in r <==> x in s && x !in rest
      invariant |r| + |rest| == |s|
      invariant SortedBy(r, key)
      decreases |rest|
    {
      var x :| x in rest;
      assert forall i | 0 <= i < |r| :: r[i] in s && r[i] != x;
      InsertByKeySorted(x, r, key);
      var r' := InsertByKey(x, r, key);
      forall y ensures y in r' <==> y in r || y == x {
        assert y in r' <==> y in multiset(r');
      }
      r := r';
      rest := rest - {x};
    }
  }

  /** The key of a string: each character's code point plus one, then a 0
      terminator. `LexLt` on these keys is SQLite's BINARY collation of text
      (code-point order, a proper prefix first); since no key is a proper
      prefix of another, the keys of several columns can be concatenated. */
  function StringKey(s: string): (k: seq<int>)
    ensures |k| == |s| + 1 && k[|s|] == 0
    ensures forall i | 0 <= i < |s| :: k[i] == s[i] as int + 1
  {
    seq(|s|, i requires 0 <= i < |s| => s[i] as int + 1) + [0]
  }

  lemma StringKeyInjective(a: string, b: string)
    requires StringKey(a) == StringKey(b)
    ensures a == b
  {
    assert |a| == |b|;
    forall i | 0 <= i < |a| ensures a[i] == b[i] {
      assert StringKey(a)[i] == StringKey(b)[i];
    }
  }

  /** Text order: SQLite's BINARY collation. */
  predicate TextLt(a: string, b: string) {
    LexLt(StringKey(a), StringKey(b))
  }

  /** Texts in strictly increasing BINARY order, hence without repeats. */
  predicate Ascending(r: seq<string>) {
    SortedBy(r, StringKey)
  }

  /** `SELECT ... ORDER BY` over a single text column of distinct values. */
  method SortTexts(s: set<string>) returns (r: seq<string>)
    ensures Ascending(r)
    ensures |r| == |s|
    ensures forall x :: x in r <==> x in s
  {
    forall x, y | x in s && y in s && StringKey(x) == StringKey(y) ensures x == y {
      StringKeyInjective(x, y);
    }
    r := SortByKey(s, StringKey);
  }

  /** Two different texts are ordered one way or the other. */
  lemma TextLtTotal(a: string, b: string)
    ensures a == b || TextLt(a, b) || TextLt(b, a)
  {
    LexLtTotal(StringKey(a), StringKey(b));
    if StringKey(a) == StringKey(b) {
      StringKeyInjective(a, b);
    }
  }

  /** `p` and `q` differ at a position both of them have. */
  predicate Diverge(p: seq<int>, q: seq<int>)
    decreases |p|
  {
    |p| > 0 && |q| > 0 && (p[0] != q[0] || Diverge(p[1..], q[1..]))
  }

  /** What follows two diverging keys does not affect their order. */
  lemma {:induction false} LexLtDiverge(p: seq<int>, q: seq<int>, x: seq<int>, y: seq<int>)
    requires Diverge(p, q)
    ensures LexLt(p + x, q + y) <==> LexLt(p, q)
    decreases |p|
  {
    if p[0] == q[0] {
      assert (p + x)[1..] == p[1..] + x;
      assert (q + y)[1..] == q[1..] + y;
      LexLtDiverge(p[1..], q[1..], x, y);
    }
  }

  /** Keys with a common prefix are ordered by what follows it. */
  lemma {:induction false} LexLtCommonPrefix(p: seq<int>, x: seq<int>, y: seq<int>)
    ensures LexLt(p + x, p + y) <==> LexLt(x, y)
    decreases |p|
  {
    if p == [] {
      assert p + x == x && p + y == y;
    } else {
      assert (p + x)[1..] == p[1..] + x;
      assert (p + y)[1..] == p[1..] + y;
      LexLtCommonPrefix(p[1..], x, y);
    }
  }

  /** The keys of two different texts diverge. */
  lemma {:induction false} StringKeysDiverge(a: string, b: string)
    requires a != b
    ensures Diverge(StringKey(a), StringKey(b))
    decreases |a|
  {
    if a != [] && b != [] && a[0] == b[0] {
      assert a[1..] != b[1..] by {
        assert a == [a[0]] + a[1..] && b == [b[0]] + b[1..];
      }
      StringKeyTail(a);
      StringKeyTail(b);
      StringKeysDiverge(a[1..], b[1..]);
    }
  }

  /** The key of a text without its first character is the key's tail. */
  lemma StringKeyTail(a: string)
    requires a != []
    ensures StringKey(a)[1..] == StringKey(a[1..])
  {
    var k, t := StringKey(a), StringKey(a[1..]);
    assert |k[1..]| == |t|;
    forall i | 0 <= i < |t| ensures k[1..][i] == t[i] {
      if i < |a| - 1 {
        assert a[1..][i] == a[i + 1];
      }
    }
  }

  /** Ordering by a text key followed by more columns is ordering by the
      text first and by the remaining columns among equal texts. */
  lemma StringKeyThen(a: string, x: seq<int>, b: string, y: seq<int>)
    ensures LexLt(StringKey(a) + x, StringKey(b) + y) <==> TextLt(a, b) || (a == b && LexLt(x, y))
  {
    if a == b {
      LexLtCommonPrefix(StringKey(a), x, y);
      LexLtIrreflexive(StringKey(a));
    } else {
      StringKeysDiverge(a, b);
      LexLtDiverge(StringKey(a), StringKey(b), x, y);
    }
  }
}
