/**
 * Array.prototype.sort as the FocusRing lists use it: a stable sort under a comparator that
 * first compares a status group and then a numeric key. Every such comparator is the
 * lexicographic order on a two-part rank, so the sort is stated once, over ranks, and each
 * list supplies its own rank function.
 */
module Sorting {

  /** The rank a comparator assigns: the group first (lower comes first), then the order. */
  datatype Rank = Rank(group: int, order: int)

  /** a may precede b. */
  predicate Le(a: Rank, b: Rank) {
    a.group < b.group || (a.group == b.group && a.order <= b.order)
  }

  /** Every element ranks no higher than every later one. */
  predicate SortedBy<T>(s: seq<T>, key: T -> Rank) {
    forall i, j :: 0 <= i < j < |s| ==> Le(key(s[i]), key(s[j]))
  }

  /** Puts x before the first element it may precede, so x stays ahead of the equal-ranked
      elements that came after it in the input. */
  function Insert<T>(x: T, s: seq<T>, key: T -> Rank): (r: seq<T>)
    requires SortedBy(s, key)
    ensures multiset(r) == multiset(s) + multiset{x}
    ensures SortedBy(r, key)
    ensures key(r[0]) == key(x) || (s != [] && key(r[0]) == key(s[0]))
  {
    if s == [] then [x]
    else if Le(key(x), key(s[0])) then [x] + s
    else
      assert s == [s[0]] + s[1..];
      var rest := Insert(x, s[1..], key);
      assert Le(key(s[0]), key(rest[0]));
      [s[0]] + rest
  }

  /** The stable sort: insertion of each element, from the last one backwards. */
  function SortBy<T>(s: seq<T>, key: T -> Rank): (r: seq<T>)
    ensures multiset(r) == multiset(s)
    ensures SortedBy(r, key)
  {
    if s == [] then []
    else
      assert s == [s[0]] + s[1..];
      Insert(s[0], SortBy(s[1..], key), key)
  }

  /** In a sorted list every element of a lower group comes before every element of a higher one. */
  lemma GroupsInOrder<T>(s: seq<T>, key: T -> Rank, i: int, j: int)
    requires SortedBy(s, key)
    requires 0 <= i < |s| && 0 <= j < |s| && key(s[i]).group < key(s[j]).group
    ensures i < j
  {
  }
}
