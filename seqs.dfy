/** Sequence operations shared by the handler lists, the <tbody> child list and
    the list of row displays: removal of the first occurrence, removal by
    position, and the descending sort used when several rows are removed. */
module Seqs {

  /** Position of the first occurrence of `x` in `s`, or |s| when absent. */
  function IndexOf<T(==)>(s: seq<T>, x: T): (k: nat)
    ensures k <= |s|
    ensures k < |s| <==> x in s
    ensures k < |s| ==> s[k] == x
    ensures forall j :: 0 <= j < k ==> s[j] != x
  {
    if s == [] then 0
    else if s[0] == x then 0
    else 1 + IndexOf(s[1..], x)
  }

  /** `java.util.List.remove(Object)`: drop the first element equal to `x`;
      the list is unchanged when there is none. */
  function RemoveFirst<T(==)>(s: seq<T>, x: T): (r: seq<T>)
    ensures x in s ==> |r| == |s| - 1
    ensures x !in s ==> r == s
  {
    if s == [] then []
    else if s[0] == x then s[1..]
    else [s[0]] + RemoveFirst(s[1..], x)
  }

  /** Number of occurrences of `x` in `s`. */
  function Count<T(==)>(s: seq<T>, x: T): nat
  {
    if s == [] then 0
    else (if s[0] == x then 1 else 0) + Count(s[1..], x)
  }

  /** No element occurs twice. */
  predicate Distinct<T(==)>(s: seq<T>)
  {
    forall i, j :: 0 <= i < j < |s| ==> s[i] != s[j]
  }

  /** The sequence with position `i` deleted (`java.util.List.remove(int)`). */
  function Delete<T>(s: seq<T>, i: nat): (r: seq<T>)
    requires i < |s|
    ensures |r| == |s| - 1
  {
    s[..i] + s[i + 1..]
  }

  /** After `Delete(s, i)`, the elements before `i` stay where they were and
      the ones after it move down by one. */
  lemma DeleteShifts<T>(s: seq<T>, i: nat)
    requires i < |s|
    ensures forall k | 0 <= k < i :: Delete(s, i)[k] == s[k]
    ensures forall k | i <= k < |s| - 1 :: Delete(s, i)[k] == s[k + 1]
  {
  }

  /** `xs` inserted into `s` at position `i` (`List.add(i, x)` for each
      element of `xs` in turn, at `i`, `i + 1`, ...). */
  function Splice<T>(s: seq<T>, i: nat, xs: seq<T>): (r: seq<T>)
    requires i <= |s|
    ensures |r| == |s| + |xs|
    ensures r[..i] == s[..i] && r[i..i + |xs|] == xs && r[i + |xs|..] == s[i..]
  {
    s[..i] + xs + s[i..]
  }

  /** Inserting one more element right after the ones already spliced in
      extends the splice, and deleting it again gives back the splice. */
  lemma SpliceStep<T>(s: seq<T>, i: nat, xs: seq<T>, x: T)
    requires i <= |s|
    ensures Splice(s, i, []) == s
    ensures var t := Splice(s, i, xs);
            var j := i + |xs|;
            t[..j] + [x] + t[j..] == Splice(s, i, xs + [x]) &&
            Delete(t[..j] + [x] + t[j..], j) == t
  {
    var t := Splice(s, i, xs);
    var j := i + |xs|;
    assert t[..j] == s[..i] + xs;
    assert t[j..] == s[i..];
    assert Delete(t[..j] + [x] + t[j..], j) == t[..j] + t[j..];
  }

  /** Removing the first occurrence splits the sequence around that
      occurrence and keeps the rest in order; when `x` is absent nothing
      changes. */
  lemma {:induction false} RemoveFirstSplits<T>(s: seq<T>, x: T)
    ensures x !in s ==> RemoveFirst(s, x) == s
    ensures x in s ==> RemoveFirst(s, x) == s[..IndexOf(s, x)] + s[IndexOf(s, x) + 1..]
  {
    if s != [] && s[0] != x {
      RemoveFirstSplits(s[1..], x);
      assert s[1..][..IndexOf(s[1..], x)] == s[1..IndexOf(s, x)];
    }
  }

  /** In a sequence without duplicates, removing the element at position
      `i` by value is the same as deleting position `i`. */
  lemma RemoveFirstOfDistinct<T>(s: seq<T>, i: nat)
    requires Distinct(s) && i < |s|
    ensures RemoveFirst(s, s[i]) == Delete(s, i)
  {
    RemoveFirstSplits(s, s[i]);
    assert IndexOf(s, s[i]) == i;
  }

  /** Removal takes away exactly one occurrence of `x` when there is one,
      and leaves the count of every other value as it was. */
  lemma {:induction false} RemoveFirstCount<T>(s: seq<T>, x: T, y: T)
    ensures Count(RemoveFirst(s, x), y) ==
            if x == y && x in s then Count(s, y) - 1 else Count(s, y)
  {
    if s != [] {
      RemoveFirstCount(s[1..], x, y);
      CountPositive(s[1..], x);
    }
  }

  /** A value occurs at least once exactly when it is in the sequence. */
  lemma {:induction false} CountPositive<T>(s: seq<T>, x: T)
    ensures Count(s, x) > 0 <==> x in s
  {
    if s != [] {
      CountPositive(s[1..], x);
      assert x in s <==> s[0] == x || x in s[1..];
    }
  }

  /** Appending one `x` adds one to its count and nothing to the others. */
  lemma {:induction false} CountAppend<T>(s: seq<T>, x: T, y: T)
    ensures Count(s + [x], y) == Count(s, y) + (if x == y then 1 else 0)
  {
    if s != [] {
      assert (s + [x])[1..] == s[1..] + [x];
      CountAppend(s[1..], x, y);
    }
  }

  /** The elements of `s` whose positions are not in `gone`, in order. */
  function Without<T>(s: seq<T>, gone: set<int>): (r: seq<T>)
    ensures |r| <= |s|
  {
    if s == [] then []
    else Without(s[..|s| - 1], gone) + (if |s| - 1 in gone then [] else [s[|s| - 1]])
  }

  /** Only the positions that exist in `s` matter to `Without`. */
  lemma {:induction false} WithoutIgnoresOutside<T>(s: seq<T>, a: set<int>, b: set<int>)
    requires forall j :: 0 <= j < |s| ==> (j in a <==> j in b)
    ensures Without(s, a) == Without(s, b)
  {
    if s != [] {
      WithoutIgnoresOutside(s[..|s| - 1], a, b);
    }
  }

  /** Deleting position `i` and then dropping positions that all lie before
      `i` is the same as dropping those positions together with `i`. */
  lemma {:induction false} DeleteThenWithout<T>(s: seq<T>, i: nat, gone: set<int>)
    requires i < |s|
    requires forall j :: j in gone ==> j < i
    ensures Without(Delete(s, i), gone) == Without(s, gone + {i})
  {
    var n := |s|;
    if i == n - 1 {
      assert Delete(s, i) == s[..n - 1];
      WithoutIgnoresOutside(s[..n - 1], gone, gone + {i});
    } else {
      var d := Delete(s, i);
      assert d[..n - 2] == Delete(s[..n - 1], i);
      assert d[n - 2] == s[n - 1];
      DeleteThenWithout(s[..n - 1], i, gone);
    }
  }

  /** Every element is strictly greater than every later one. */
  predicate StrictlyDescending(s: seq<int>)
  {
    forall i, j :: 0 <= i < j < |s| ==> s[i] > s[j]
  }

  /** Every element is at least as large as every later one. */
  predicate Descending(s: seq<int>)
  {
    forall i, j :: 0 <= i < j < |s| ==> s[i] >= s[j]
  }

  /** Insert `x` into a descending sequence, before the first smaller element. */
  function InsertDescending(x: int, s: seq<int>): (r: seq<int>)
    ensures |r| == |s| + 1
  {
    if s == [] || x >= s[0] then [x] + s
    else [s[0]] + InsertDescending(x, s[1..])
  }

  /** `Collections.sort(list, (n, m) -> m - n)`: the list in descending order. */
  function SortDescending(s: seq<int>): (r: seq<int>)
    ensures |r| == |s|
  {
    if s == [] then [] else InsertDescending(s[0], SortDescending(s[1..]))
  }

  /** Insertion adds exactly one `x` and keeps every element. */
  lemma {:induction false} InsertDescendingElements(x: int, s: seq<int>)
    ensures multiset(InsertDescending(x, s)) == multiset(s) + multiset{x}
  {
    if s != [] && x < s[0] {
      InsertDescendingElements(x, s[1..]);
      assert s == [s[0]] + s[1..];
    }
  }

  /** Every element of an insertion is `x` or an element of `s`. */
  lemma InsertDescendingMembers(x: int, s: seq<int>, k: nat)
    requires k < |InsertDescending(x, s)|
    ensures InsertDescending(x, s)[k] == x || InsertDescending(x, s)[k] in s
  {
    InsertDescendingElements(x, s);
    assert InsertDescending(x, s)[k] in multiset(InsertDescending(x, s));
  }

  /** Insertion keeps a descending sequence descending. */
  lemma {:induction false} InsertDescendingOrder(x: int, s: seq<int>)
    requires Descending(s)
    ensures Descending(InsertDescending(x, s))
  {
    if s != [] && x < s[0] {
      InsertDescendingOrder(x, s[1..]);
      var r := InsertDescending(x, s[1..]);
      forall k | 0 <= k < |r|
        ensures s[0] >= r[k]
      {
        InsertDescendingMembers(x, s[1..], k);
      }
    }
  }

  /** Insertion of a new value keeps a strictly descending sequence
      strictly descending. */
  lemma {:induction false} InsertDescendingStrict(x: int, s: seq<int>)
    requires StrictlyDescending(s) && x !in s
    ensures StrictlyDescending(InsertDescending(x, s))
  {
    if s != [] && x < s[0] {
      InsertDescendingStrict(x, s[1..]);
      var r := InsertDescending(x, s[1..]);
      forall k | 0 <= k < |r|
        ensures s[0] > r[k]
      {
        InsertDescendingMembers(x, s[1..], k);
      }
    }
  }

  /** The sorted list is a descending permutation of its input, and strictly
      descending when the input has no duplicates. */
  lemma SortDescendingCorrect(s: seq<int>)
    ensures multiset(SortDescending(s)) == multiset(s)
    ensures Descending(SortDescending(s))
    ensures Distinct(s) ==> StrictlyDescending(SortDescending(s))
  {
    SortDescendingPermutes(s);
    SortDescendingOrders(s);
    if Distinct(s) {
      SortDescendingStrict(s);
    }
  }

  lemma {:induction false} SortDescendingPermutes(s: seq<int>)
    ensures multiset(SortDescending(s)) == multiset(s)
  {
    if s != [] {
      SortDescendingPermutes(s[1..]);
      assert s == [s[0]] + s[1..];
      InsertDescendingElements(s[0], SortDescending(s[1..]));
    }
  }

  lemma {:induction false} SortDescendingOrders(s: seq<int>)
    ensures Descending(SortDescending(s))
  {
    if s != [] {
      SortDescendingOrders(s[1..]);
      InsertDescendingOrder(s[0], SortDescending(s[1..]));
    }
  }

  lemma {:induction false} SortDescendingStrict(s: seq<int>)
    requires Distinct(s)
    ensures StrictlyDescending(SortDescending(s))
  {
    if s != [] {
      assert Distinct(s[1..]);
      SortDescendingStrict(s[1..]);
      SortDescendingPermutes(s[1..]);
      assert s[0] !in s[1..];
      assert s[0] !in multiset(SortDescending(s[1..]));
      InsertDescendingStrict(s[0], SortDescending(s[1..]));
    }
  }

  /** The outcome of removing positions one after another: what is left,
      what was taken out (in removal order), and whether every position was
      in range when its turn came. */
  datatype Removal<T> = Removal(rest: seq<T>, removed: seq<T>, complete: bool)

  /** Remove `order[0]`, then `order[1]` from what is left, and so on; stop
      at the first position that is out of range (`List.remove(int)` throws
      there, after the earlier removals have happened). */
  function RemoveEach<T>(s: seq<T>, order: seq<int>): (r: Removal<T>)
    ensures |r.rest| + |r.removed| == |s|
    ensures r.complete ==> |r.removed| == |order|
  {
    if order == [] then Removal(s, [], true)
    else if !(0 <= order[0] < |s|) then Removal(s, [], false)
    else
      var r := RemoveEach(Delete(s, order[0]), order[1..]);
      Removal(r.rest, [s[order[0]]] + r.removed, r.complete)
  }

  /** Taking out `order[k]` moves one element from what is still to be
      removed to what has been removed: the overall outcome is the same. */
  lemma RemoveEachStep<T>(s: seq<T>, order: seq<int>, k: nat, soFar: seq<T>, total: Removal<T>)
    requires k < |order| && 0 <= order[k] < |s|
    requires var r := RemoveEach(s, order[k..]);
             Removal(r.rest, soFar + r.removed, r.complete) == total
    ensures var r := RemoveEach(Delete(s, order[k]), order[k + 1..]);
            Removal(r.rest, (soFar + [s[order[k]]]) + r.removed, r.complete) == total
  {
    assert order[k..][1..] == order[k + 1..];
    var r := RemoveEach(Delete(s, order[k]), order[k + 1..]);
    ConcatAssociates(soFar, [s[order[k]]], r.removed);
  }

  lemma ConcatAssociates<T>(a: seq<T>, b: seq<T>, c: seq<T>)
    ensures a + (b + c) == (a + b) + c
  {
  }

  /** Every position is in range of `s`. */
  predicate InRange<T>(s: seq<T>, order: seq<int>)
  {
    forall k :: 0 <= k < |order| ==> 0 <= order[k] < |s|
  }

  /** Positions removed from the highest down all refer to the original
      sequence: exactly the elements at those positions are taken out, in
      that order, and the others stay in their relative order. */
  lemma RemoveEachDescending<T>(s: seq<T>, order: seq<int>)
    requires StrictlyDescending(order) && InRange(s, order)
    ensures RemoveEach(s, order).complete
    ensures RemoveEach(s, order).rest == Without(s, set k | k in order)
    ensures |RemoveEach(s, order).removed| == |order|
    ensures forall k :: 0 <= k < |order| ==> RemoveEach(s, order).removed[k] == s[order[k]]
  {
    RemoveEachDescendingRest(s, order);
    RemoveEachDescendingRemoved(s, order);
  }

  /** The first position is the highest; the others stay strictly
      descending, in range of the shortened sequence, and below it. */
  lemma DescendingTail<T>(s: seq<T>, order: seq<int>)
    requires order != [] && StrictlyDescending(order) && InRange(s, order)
    ensures 0 <= order[0] < |s|
    ensures StrictlyDescending(order[1..]) && InRange(Delete(s, order[0]), order[1..])
    ensures forall k :: k in order[1..] ==> k < order[0]
    ensures (set k | k in order[1..]) + {order[0]} == set k | k in order
  {
    assert order == [order[0]] + order[1..];
  }

  lemma {:induction false} RemoveEachDescendingRest<T>(s: seq<T>, order: seq<int>)
    requires StrictlyDescending(order) && InRange(s, order)
    ensures RemoveEach(s, order).complete
    ensures RemoveEach(s, order).rest == Without(s, set k | k in order)
  {
    if order == [] {
      WithoutNothing(s, set k | k in order);
    } else {
      DescendingTail(s, order);
      var tail := order[1..];
      RemoveEachDescendingRest(Delete(s, order[0]), tail);
      DeleteThenWithout(s, order[0], set k | k in tail);
    }
  }

  lemma {:induction false} RemoveEachDescendingRemoved<T>(s: seq<T>, order: seq<int>)
    requires StrictlyDescending(order) && InRange(s, order)
    ensures RemoveEach(s, order).complete ==>
              forall k :: 0 <= k < |order| ==> RemoveEach(s, order).removed[k] == s[order[k]]
  {
    if order != [] {
      DescendingTail(s, order);
      var i := order[0];
      var tail := order[1..];
      RemoveEachDescendingRemoved(Delete(s, i), tail);
      var r := RemoveEach(s, order);
      if r.complete {
        forall k | 0 <= k < |order|
          ensures r.removed[k] == s[order[k]]
        {
          if k > 0 {
            assert tail[k - 1] == order[k] && order[k] < i;
            assert Delete(s, i)[order[k]] == s[order[k]];
          }
        }
      }
    }
  }

  /** Dropping no position keeps the whole sequence. */
  lemma {:induction false} WithoutNothing<T>(s: seq<T>, gone: set<int>)
    requires forall j :: 0 <= j < |s| ==> j !in gone
    ensures Without(s, gone) == s
  {
    if s != [] {
      WithoutNothing(s[..|s| - 1], gone);
    }
  }

  /** Removing positions 0 then 1 from three elements takes the first and
      the third (the second removal sees shifted positions), not the first
      two; on two elements the second removal is out of range. */
  lemma AscendingRemovalCounterexample()
    ensures RemoveEach([10, 20, 30], [0, 1]).rest == [20]
    ensures Without([10, 20, 30], {0, 1}) == [30]
    ensures !RemoveEach([10, 20], [0, 1]).complete
  {
    assert Delete([10, 20, 30], 0) == [20, 30];
    assert Delete([20, 30], 1) == [20];
    assert [10, 20, 30][..2] == [10, 20];
    assert [10, 20][..1] == [10];
    assert [10][..0] == [];
    assert Delete([10, 20], 0) == [20];
  }
}
