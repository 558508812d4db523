/** `ORDER BY <text column> DESC` as the store evaluates it: text values
    compare character by character (SQLite's BINARY collation), and rows
    are listed from the largest key to the smallest. Rows with equal keys
    may come in any order, so listings are specified by "sorted and a
    permutation" rather than by one particular sequence. */
module Ordering {

  /** `a` sorts before or equal to `b`, comparing code points from the left;
      a proper prefix sorts first. */
  predicate LexLeq(a: string, b: string)
  {
    if a == [] then true
    else if b == [] then false
    else if a[0] != b[0] then a[0] < b[0]
    else LexLeq(a[1..], b[1..])
  }

  lemma {:induction false} LexLeqTotal(a: string, b: string)
    ensures LexLeq(a, b) || LexLeq(b, a)
  {
    if a != [] && b != [] && a[0] == b[0] { LexLeqTotal(a[1..], b[1..]); }
  }

  lemma {:induction false} LexLeqAntisymmetric(a: string, b: string)
    requires LexLeq(a, b) && LexLeq(b, a)
    ensures a == b
  {
    if a != [] && b != [] {
      LexLeqAntisymmetric(a[1..], b[1..]);
      assert a == [a[0]] + a[1..] && b == [b[0]] + b[1..];
    }
  }

  lemma {:induction false} LexLeqTransitive(a: string, b: string, c: string)
    requires LexLeq(a, b) && LexLeq(b, c)
    ensures LexLeq(a, c)
  {
    if a != [] && b != [] && c != [] && a[0] == b[0] && b[0] == c[0] {
      LexLeqTransitive(a[1..], b[1..], c[1..]);
    }
  }

  /** Every element's key is at least the key of every later element. */
  ghost predicate SortedDescBy<T>(s: seq<T>, key: T -> string)
  {
    forall i, j :: 0 <= i < j < |s| ==> LexLeq(key(s[j]), key(s[i]))
  }

  /** Places `x` in front of the first element whose key does not exceed its own. */
  function InsertDescBy<T>(x: T, s: seq<T>, key: T -> string): (r: seq<T>)
    ensures |r| == |s| + 1
  {
    if s == [] then [x]
    else if LexLeq(key(s[0]), key(x)) then [x] + s
    else [s[0]] + InsertDescBy(x, s[1..], key)
  }

  /** The store's sort of `s` on `key`, descending (insertion sort). */
  function SortDescBy<T>(s: seq<T>, key: T -> string): (r: seq<T>)
    ensures |r| == |s|
  {
    if s == [] then [] else InsertDescBy(s[0], SortDescBy(s[1..], key), key)
  }

  lemma {:induction false} InsertDescByPermutes<T>(x: T, s: seq<T>, key: T -> string)
    ensures multiset(InsertDescBy(x, s, key)) == multiset(s) + multiset{x}
  {
    if s != [] && !LexLeq(key(s[0]), key(x)) {
      InsertDescByPermutes(x, s[1..], key);
      assert s == [s[0]] + s[1..];
    }
  }

  lemma {:induction false} InsertDescBySorted<T>(x: T, s: seq<T>, key: T -> string)
    requires SortedDescBy(s, key)
    ensures SortedDescBy(InsertDescBy(x, s, key), key)
  {
    if s == [] {
    } else if LexLeq(key(s[0]), key(x)) {
      var r := [x] + s;
      forall i, j | 0 <= i < j < |r| ensures LexLeq(key(r[j]), key(r[i])) {
        if i == 0 {
          if j > 1 { LexLeqTransitive(key(s[j - 1]), key(s[0]), key(x)); }
        }
      }
    } else {
      var tail := InsertDescBy(x, s[1..], key);
      InsertDescBySorted(x, s[1..], key);
      InsertDescByPermutes(x, s[1..], key);
      LexLeqTotal(key(s[0]), key(x));
      var r := [s[0]] + tail;
      forall i, j | 0 <= i < j < |r| ensures LexLeq(key(r[j]), key(r[i])) {
        if i == 0 {
          var y := r[j];
          assert y in multiset(tail);
          assert y == x || y in multiset(s[1..]);
          if y != x {
            var k :| 0 <= k < |s[1..]| && s[1..][k] == y;
            assert s[k + 1] == y;
          }
        }
      }
    }
  }

  /** The sort keeps every row exactly as often as it occurs. */
  lemma {:induction false} SortDescByPermutes<T>(s: seq<T>, key: T -> string)
    ensures multiset(SortDescBy(s, key)) == multiset(s)
  {
    if s != [] {
      SortDescByPermutes(s[1..], key);
      InsertDescByPermutes(s[0], SortDescBy(s[1..], key), key);
      assert s == [s[0]] + s[1..];
    }
  }

  /** The sort lists keys from largest to smallest. */
  lemma {:induction false} SortDescBySorted<T>(s: seq<T>, key: T -> string)
    ensures SortedDescBy(SortDescBy(s, key), key)
  {
    if s != [] {
      SortDescBySorted(s[1..], key);
      InsertDescBySorted(s[0], SortDescBy(s[1..], key), key);
    }
  }

  /** Sorting, then, lists exactly the given rows: an element occurs in the
      result if and only if it occurs in the input. */
  lemma SortDescByMembers<T>(s: seq<T>, key: T -> string, x: T)
    ensures x in SortDescBy(s, key) <==> x in s
  {
    SortDescByPermutes(s, key);
    assert x in SortDescBy(s, key) <==> x in multiset(SortDescBy(s, key));
    assert x in s <==> x in multiset(s);
  }
}
