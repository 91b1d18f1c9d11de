/**
 The final `tailles.sort(reverse=True)`: component sizes in non-increasing order.
 Python's sort is a library routine; it is modelled by its result, a sorted
 permutation, built here by insertion.
 */
module Sorting {

  /** Each entry at least as large as every later one. */
  predicate NonIncreasing(s: seq<nat>)
  {
    forall a, b :: 0 <= a < b < |s| ==> s[a] >= s[b]
  }

  function Sum(s: seq<nat>): nat
  {
    if s == [] then 0 else s[0] + Sum(s[1..])
  }

  /** Places `x` into a sequence, before the first entry smaller than it. */
  function Insert(x: nat, s: seq<nat>): seq<nat>
  {
    if s == [] || x >= s[0] then [x] + s
    else [s[0]] + Insert(x, s[1..])
  }

  /** Inserting adds `x` to the entries and to their sum. */
  lemma {:induction false} InsertAdds(x: nat, s: seq<nat>)
    ensures multiset(Insert(x, s)) == multiset(s) + multiset{x}
    ensures Sum(Insert(x, s)) == Sum(s) + x
  {
    if s != [] && x < s[0] {
      InsertAdds(x, s[1..]);
      assert s == [s[0]] + s[1..];
      var t := Insert(x, s[1..]);
      assert ([s[0]] + t)[1..] == t;
    } else {
      assert ([x] + s)[1..] == s;
    }
  }

  /** Inserting into a non-increasing sequence keeps it non-increasing. */
  lemma {:induction false} InsertKeepsOrder(x: nat, s: seq<nat>)
    requires NonIncreasing(s)
    ensures NonIncreasing(Insert(x, s))
  {
    if s == [] || x >= s[0] {
      if s != [] {
        SplitHead(s);
      }
      Prepend(x, s);
    } else {
      SplitHead(s);
      InsertKeepsOrder(x, s[1..]);
      InsertAdds(x, s[1..]);
      Prepend(s[0], Insert(x, s[1..]));
    }
  }

  /** Putting in front an entry no smaller than any of `s` keeps the order. */
  lemma Prepend(h: nat, s: seq<nat>)
    requires NonIncreasing(s)
    requires forall e :: e in multiset(s) ==> e <= h
    ensures NonIncreasing([h] + s)
  {
    forall a, b | 0 <= a < b < |[h] + s| ensures ([h] + s)[a] >= ([h] + s)[b] {
      if a == 0 {
        assert s[b - 1] in multiset(s);
      }
    }
  }

  /** `list.sort(reverse=True)` on the sizes. */
  function SortDescending(s: seq<nat>): (r: seq<nat>)
    ensures NonIncreasing(r)
    ensures multiset(r) == multiset(s)
    ensures Sum(r) == Sum(s)
  {
    if s == [] then []
    else
      var t := SortDescending(s[1..]);
      InsertKeepsOrder(s[0], t);
      InsertAdds(s[0], t);
      assert s == [s[0]] + s[1..];
      Insert(s[0], t)
  }

  /** The first entry of a non-empty non-increasing sequence is its largest. */
  lemma HeadIsMax(s: seq<nat>, x: nat)
    requires NonIncreasing(s) && x in multiset(s)
    ensures s[0] >= x
  {
    var k :| 0 <= k < |s| && s[k] == x;
  }

  lemma SplitHead(s: seq<nat>)
    requires s != []
    ensures multiset(s[1..]) == multiset(s) - multiset{s[0]}
    ensures NonIncreasing(s) ==> NonIncreasing(s[1..])
    ensures NonIncreasing(s) ==> forall e :: e in multiset(s[1..]) ==> e <= s[0]
  {
    assert s == [s[0]] + s[1..];
  }

  /** Two non-increasing orders of one multiset start alike. */
  lemma SameHead(a: seq<nat>, b: seq<nat>)
    requires NonIncreasing(a) && NonIncreasing(b)
    requires multiset(a) == multiset(b) && a != []
    ensures b != [] && a[0] == b[0]
  {
    assert a[0] in multiset(b);
    HeadIsMax(b, a[0]);
    HeadIsMax(a, b[0]);
  }

  /** A non-increasing order of a multiset of sizes is unique: sorting leaves no choice. */
  lemma {:induction false} SortedUnique(a: seq<nat>, b: seq<nat>)
    requires NonIncreasing(a) && NonIncreasing(b)
    requires multiset(a) == multiset(b)
    ensures a == b
  {
    if a != [] {
      SameHead(a, b);
      SplitHead(a);
      SplitHead(b);
      SortedUnique(a[1..], b[1..]);
      HeadAndTail(a, b);
    } else if b != [] {
      SameHead(b, a);
    }
  }

  /** Equal heads and equal tails give equal sequences; stated apart to keep the extensionality step out of the induction. */
  lemma HeadAndTail(a: seq<nat>, b: seq<nat>)
    requires a != [] && b != [] && a[0] == b[0] && a[1..] == b[1..]
    ensures a == b
  {
    assert a == [a[0]] + a[1..] && b == [b[0]] + b[1..];
  }

  /** Reordering does not change the sum. */
  lemma SumOfPermutation(a: seq<nat>, b: seq<nat>)
    requires multiset(a) == multiset(b)
    ensures Sum(a) == Sum(b)
  {
    SortedUnique(SortDescending(a), SortDescending(b));
  }
}
