/**
 * The default `Array.prototype.sort()` that `validateAnswer` applies to the correct letters
 * and to the selection (js/script.js:295-296): strings in lexicographic order. Only the
 * equality of two sorted lists is ever used, and that equality holds exactly when the two
 * lists hold the same strings the same number of times, whatever the order compared.
 */
module Sorting {

  /** Lexicographic order on strings, character by character; a prefix comes first. */
  predicate Below(a: string, b: string)
  {
    a == [] || (b != [] && (a[0] < b[0] || (a[0] == b[0] && Below(a[1..], b[1..]))))
  }

  lemma {:induction false} BelowTotal(a: string, b: string)
    ensures Below(a, b) || Below(b, a)
    decreases |a|
  {
    if a != [] && b != [] && a[0] == b[0] {
      BelowTotal(a[1..], b[1..]);
    }
  }

  lemma {:induction false} BelowAntisymmetric(a: string, b: string)
    requires Below(a, b) && Below(b, a)
    ensures a == b
    decreases |a|
  {
    if a != [] {
      BelowAntisymmetric(a[1..], b[1..]);
      assert a == [a[0]] + a[1..] && b == [b[0]] + b[1..];
    }
  }

  lemma {:induction false} BelowTransitive(a: string, b: string, c: string)
    requires Below(a, b) && Below(b, c)
    ensures Below(a, c)
    decreases |a|
  {
    if a != [] && a[0] == b[0] && b[0] == c[0] {
      BelowTransitive(a[1..], b[1..], c[1..]);
    }
  }

  predicate IsSorted(s: seq<string>)
  {
    forall i, j :: 0 <= i < j < |s| ==> Below(s[i], s[j])
  }

  /** Insertion of `x` before the first element it is below. */
  function Insert(x: string, s: seq<string>): (r: seq<string>)
    ensures multiset(r) == multiset(s) + multiset{x}
    ensures IsSorted(s) ==> IsSorted(r)
  {
    if s == [] then [x]
    else if Below(x, s[0]) then
      var r := [x] + s;
      assert IsSorted(s) ==> IsSorted(r) by {
        if IsSorted(s) {
          forall j | 0 < j < |r| ensures Below(x, r[j]) {
            if j > 1 { BelowTransitive(x, s[0], s[j - 1]); }
          }
        }
      }
      r
    else
      var tail := Insert(x, s[1..]);
      var r := [s[0]] + tail;
      assert s == [s[0]] + s[1..];
      assert IsSorted(s) ==> IsSorted(r) by {
        if IsSorted(s) {
          BelowTotal(x, s[0]);
          forall j | 0 < j < |r| ensures Below(s[0], r[j]) {
            assert r[j] in multiset(tail);
            if r[j] != x {
              assert r[j] in multiset(s[1..]);
              var k :| 0 <= k < |s[1..]| && s[1..][k] == r[j];
              assert s[k + 1] == r[j];
            }
          }
        }
      }
      r
  }

  /** Insertion sort: the sorted permutation of `s`. */
  function Sort(s: seq<string>): (r: seq<string>)
    ensures multiset(r) == multiset(s)
    ensures IsSorted(r)
  {
    if s == [] then []
    else
      assert s == [s[0]] + s[1..];
      Insert(s[0], Sort(s[1..]))
  }

  lemma SortedHeads(a: seq<string>, b: seq<string>)
    requires IsSorted(a) && IsSorted(b) && multiset(a) == multiset(b) && a != []
    ensures b != [] && a[0] == b[0]
  {
    assert a[0] in multiset(b);
    var k :| 0 <= k < |b| && b[k] == a[0];
    assert b[0] in multiset(a);
    var i :| 0 <= i < |a| && a[i] == b[0];
    if i > 0 { assert Below(a[0], a[i]); }
    if k > 0 { assert Below(b[0], b[k]); }
    if a[0] != b[0] {
      BelowAntisymmetric(a[0], b[0]);
    }
  }

  lemma TailMultiset(a: seq<string>)
    requires a != []
    ensures multiset(a[1..]) == multiset(a) - multiset{a[0]}
  {
    assert a == [a[0]] + a[1..];
  }

  lemma {:induction false} SortedUnique(a: seq<string>, b: seq<string>)
    requires IsSorted(a) && IsSorted(b) && multiset(a) == multiset(b)
    ensures a == b
    decreases |a|
  {
    if a != [] {
      SortedHeads(a, b);
      TailMultiset(a);
      TailMultiset(b);
      SortedUnique(a[1..], b[1..]);
      assert a == [a[0]] + a[1..] && b == [b[0]] + b[1..];
    } else if b != [] {
      SortedHeads(b, a);
    }
  }

  /** Two lists sort to the same list exactly when they hold the same strings equally often. */
  lemma SameSortIffSameMultiset(a: seq<string>, b: seq<string>)
    ensures Sort(a) == Sort(b) <==> multiset(a) == multiset(b)
  {
    if multiset(a) == multiset(b) {
      SortedUnique(Sort(a), Sort(b));
    }
  }
}
