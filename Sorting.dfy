/** The column comparator `sortRows` and the in-place sort `buildRows`
    runs with it (`rows.sort(...)`). */
module Sorting {
  import opened Catalog
  import opened Strings

  /** `getSortKey`: the `appName` column reads `apiName` on an object whose
      `apiName` is truthy. */
  function SortKeyOf(e: Entry, key: SortKey): (k: SortKey)
    ensures key == AppName && Truthy(e.apiName) ==> k == ApiName
    ensures key != AppName || !Truthy(e.apiName) ==> k == key
  {
    if key == AppName && Truthy(e.apiName) then ApiName else key
  }

  /** `obj[getSortKey(obj)]`: the value an entry is compared on. */
  function SortValue(e: Entry, key: SortKey): Option<string>
  {
    Field(e, SortKeyOf(e, key))
  }

  /** `a[..]?.localeCompare(b[..])`: undefined when the left value is missing;
      a missing right value is compared as the text "undefined". */
  function CompareEntries(a: Entry, b: Entry, key: SortKey): (r: Option<int>)
    ensures r.None? <==> SortValue(a, key).None?
    ensures r.Some? ==> -1 <= r.value <= 1
    ensures r.Some? ==> (r.value == 0 <==> Lower(SortValue(a, key).value) == Lower(Interpolate(SortValue(b, key))))
  {
    match SortValue(a, key)
    case None => None
    case Some(x) => Some(CompareIgnoringCase(x, Interpolate(SortValue(b, key))))
  }

  /** `sortRows(curr, next, key, isDesc)`; `None` is the `undefined` it returns
      when the left operand's value is missing. Descending order swaps the operands. */
  function SortRows(curr: Entry, next: Entry, key: SortKey, isDesc: bool): (r: Option<int>)
    ensures r.None? <==> SortValue(if isDesc then next else curr, key).None?
    ensures r.Some? ==> -1 <= r.value <= 1
    ensures SortValue(curr, key).Some? && SortValue(next, key).Some? ==>
      (r == Some(0) <==> Lower(SortValue(curr, key).value) == Lower(SortValue(next, key).value))
  {
    if isDesc then CompareEntries(next, curr, key) else CompareEntries(curr, next, key)
  }

  /** Descending order is ascending order with the operands swapped. */
  lemma DescendingSwapsOperands(curr: Entry, next: Entry, key: SortKey)
    ensures SortRows(curr, next, key, true) == SortRows(next, curr, key, false)
  {
  }

  /** With the `appName` column, two entries that both carry a truthy `apiName`
      are compared on it, ignoring case. */
  lemma AppNameSortsOnApiName(curr: Entry, next: Entry, isDesc: bool)
    requires Truthy(curr.apiName) && Truthy(next.apiName)
    ensures SortRows(curr, next, AppName, isDesc) ==
      Some(if isDesc then CompareIgnoringCase(next.apiName.value, curr.apiName.value)
           else CompareIgnoringCase(curr.apiName.value, next.apiName.value))
  {
  }

  /** Changing the case of the compared values never changes the comparison. */
  lemma SortRowsIgnoresCase(curr: Entry, next: Entry, key: SortKey, isDesc: bool)
    requires Truthy(curr.title) && Truthy(next.title) && key == Title
    ensures SortRows(curr, next, key, isDesc) ==
      SortRows(curr.(title := Some(Upper(curr.title.value))), next.(title := Some(Upper(next.title.value))), key, isDesc)
  {
    LowerOfUpper(curr.title.value);
    LowerOfUpper(next.title.value);
  }

  /** The number `Array.prototype.sort` acts on: an undefined comparator result
      converts to NaN, which the sort treats as +0. */
  function Order(curr: Entry, next: Entry, key: SortKey, isDesc: bool): (r: int)
    ensures -1 <= r <= 1
    ensures SortRows(curr, next, key, isDesc).None? ==> r == 0
    ensures SortRows(curr, next, key, isDesc).Some? ==> r == SortRows(curr, next, key, isDesc).value
  {
    SortRows(curr, next, key, isDesc).GetOr(0)
  }

  /** Whatever fields are missing, the comparator never reports both
      "after" and "before" for the same pair. */
  lemma OrderNeverBothPositive(a: Entry, b: Entry, key: SortKey, isDesc: bool)
    ensures !(Order(a, b, key, isDesc) > 0 && Order(b, a, key, isDesc) > 0)
  {
    match (SortValue(a, key), SortValue(b, key))
    case (Some(x), Some(y)) => CompareIgnoringCaseSwap(x, y);
    case _ =>
  }

  /** Among entries that all have the compared value, the comparator is transitive. */
  lemma OrderTransitive(a: Entry, b: Entry, c: Entry, key: SortKey, isDesc: bool)
    requires SortValue(a, key).Some? && SortValue(b, key).Some? && SortValue(c, key).Some?
    requires Order(a, b, key, isDesc) <= 0 && Order(b, c, key, isDesc) <= 0
    ensures Order(a, c, key, isDesc) <= 0
  {
    var x, y, z := Lower(SortValue(a, key).value), Lower(SortValue(b, key).value), Lower(SortValue(c, key).value);
    if isDesc {
      LexCompareTransitive(z, y, x);
    } else {
      LexCompareTransitive(x, y, z);
    }
  }

  /** Every neighbouring pair is in order. */
  ghost predicate AdjacentOrdered(s: seq<Entry>, key: SortKey, isDesc: bool)
  {
    forall i :: 0 < i < |s| ==> Order(s[i - 1], s[i], key, isDesc) <= 0
  }

  /** Every pair is in order. */
  ghost predicate Sorted(s: seq<Entry>, key: SortKey, isDesc: bool)
  {
    forall i, j :: 0 <= i < j < |s| ==> Order(s[i], s[j], key, isDesc) <= 0
  }

  ghost predicate AllHaveSortValue(s: seq<Entry>, key: SortKey)
  {
    forall i :: 0 <= i < |s| ==> SortValue(s[i], key).Some?
  }

  lemma {:induction false} OrderedPair(s: seq<Entry>, key: SortKey, isDesc: bool, i: nat, j: nat)
    requires AllHaveSortValue(s, key) && AdjacentOrdered(s, key, isDesc)
    requires i < j < |s|
    ensures Order(s[i], s[j], key, isDesc) <= 0
    decreases j - i
  {
    if j > i + 1 {
      OrderedPair(s, key, isDesc, i, j - 1);
      OrderTransitive(s[i], s[j - 1], s[j], key, isDesc);
    }
  }

  /** When every entry has the compared value, neighbour order is full order. */
  lemma AdjacentOrderedIsSorted(s: seq<Entry>, key: SortKey, isDesc: bool)
    requires AllHaveSortValue(s, key) && AdjacentOrdered(s, key, isDesc)
    ensures Sorted(s, key, isDesc)
  {
    forall i, j | 0 <= i < j < |s|
      ensures Order(s[i], s[j], key, isDesc) <= 0
    {
      OrderedPair(s, key, isDesc, i, j);
    }
  }

  /** Swaps two neighbouring elements. */
  method SwapDown(a: array<Entry>, j: int)
    requires 0 < j < a.Length
    modifies a
    ensures a[..] == old(a[..])[j - 1 := old(a[j])][j := old(a[j - 1])]
  {
    a[j - 1], a[j] := a[j], a[j - 1];
  }

  /** The state of one insertion: `s[j]` is the element being moved left;
      the neighbouring pairs to its left and to its right, up to `i`, are in
      order, and so is the pair it was put between. */
  ghost predicate Inserting(s: seq<Entry>, i: int, j: int, key: SortKey, isDesc: bool)
  {
    && 0 <= j <= i < |s|
    && (forall k :: 0 < k < j ==> Order(s[k - 1], s[k], key, isDesc) <= 0)
    && (forall k :: j < k <= i ==> Order(s[k - 1], s[k], key, isDesc) <= 0)
    && (0 < j < i ==> Order(s[j - 1], s[j + 1], key, isDesc) <= 0)
  }

  lemma InsertingStep(s: seq<Entry>, i: int, j: int, key: SortKey, isDesc: bool)
    requires Inserting(s, i, j, key, isDesc) && 0 < j
    requires Order(s[j - 1], s[j], key, isDesc) > 0
    ensures Inserting(s[j - 1 := s[j]][j := s[j - 1]], i, j - 1, key, isDesc)
  {
    OrderNeverBothPositive(s[j - 1], s[j], key, isDesc);
  }

  /** Swapping two neighbours below `n` keeps the elements and everything from `n` on. */
  lemma SwapKeeps<T>(s: seq<T>, j: int, n: int)
    requires 0 < j < n <= |s|
    ensures multiset(s[j - 1 := s[j]][j := s[j - 1]]) == multiset(s)
    ensures s[j - 1 := s[j]][j := s[j - 1]][n..] == s[n..]
  {
  }

  lemma InsertingDone(s: seq<Entry>, i: int, j: int, key: SortKey, isDesc: bool)
    requires Inserting(s, i, j, key, isDesc)
    requires j == 0 || Order(s[j - 1], s[j], key, isDesc) <= 0
    ensures forall k :: 0 < k <= i ==> Order(s[k - 1], s[k], key, isDesc) <= 0
  {
  }

  /** The state of `InsertAt` while `s[j]` travels left: `Inserting`, the same
      elements as at the start, and nothing from `i + 1` on touched. */
  ghost predicate InsertState(s: seq<Entry>, start: seq<Entry>, i: int, j: int, key: SortKey, isDesc: bool)
  {
    && Inserting(s, i, j, key, isDesc)
    && |s| == |start|
    && multiset(s) == multiset(start)
    && s[i + 1..] == start[i + 1..]
  }

  lemma InsertStateStep(s: seq<Entry>, start: seq<Entry>, i: int, j: int, key: SortKey, isDesc: bool)
    requires InsertState(s, start, i, j, key, isDesc) && 0 < j
    requires Order(s[j - 1], s[j], key, isDesc) > 0
    ensures InsertState(s[j - 1 := s[j]][j := s[j - 1]], start, i, j - 1, key, isDesc)
  {
    InsertingStep(s, i, j, key, isDesc);
    SwapKeeps(s, j, i + 1);
  }

  lemma InsertStateDone(s: seq<Entry>, start: seq<Entry>, i: int, j: int, key: SortKey, isDesc: bool)
    requires InsertState(s, start, i, j, key, isDesc)
    requires j == 0 || Order(s[j - 1], s[j], key, isDesc) <= 0
    ensures multiset(s) == multiset(start)
    ensures multiset(s[..i + 1]) == multiset(start[..i + 1])
    ensures s[i + 1..] == start[i + 1..]
    ensures forall k :: 0 < k <= i ==> Order(s[k - 1], s[k], key, isDesc) <= 0
  {
    InsertingDone(s, i, j, key, isDesc);
    PrefixSameElements(s, start, i + 1);
  }

  /** Moves `a[i]` left past every neighbour that must come after it, so that
      the first `i + 1` elements end up with every neighbouring pair in order. */
  method InsertAt(a: array<Entry>, i: int, key: SortKey, isDesc: bool)
    requires 0 <= i < a.Length
    requires forall k :: 0 < k < i ==> Order(a[k - 1], a[k], key, isDesc) <= 0
    modifies a
    ensures multiset(a[..]) == multiset(old(a[..]))
    ensures multiset(a[..i + 1]) == multiset(old(a[..i + 1]))
    ensures a[i + 1..] == old(a[i + 1..])
    ensures forall k :: 0 < k <= i ==> Order(a[k - 1], a[k], key, isDesc) <= 0
  {
    ghost var start := a[..];
    var j := i;
    while j > 0 && Order(a[j - 1], a[j], key, isDesc) > 0
      invariant InsertState(a[..], start, i, j, key, isDesc)
    {
      InsertStateStep(a[..], start, i, j, key, isDesc);
      SwapDown(a, j);
      j := j - 1;
    }
    InsertStateDone(a[..], start, i, j, key, isDesc);
  }

  /** Two arrangements of the same elements that agree from `n` on hold the
      same elements before `n`. */
  lemma PrefixSameElements(s: seq<Entry>, t: seq<Entry>, n: nat)
    requires n <= |s| == |t| && multiset(s) == multiset(t) && s[n..] == t[n..]
    ensures multiset(s[..n]) == multiset(t[..n])
  {
    assert s == s[..n] + s[n..] && t == t[..n] + t[n..];
    assert multiset(s[..n]) == multiset(s) - multiset(s[n..]);
    assert multiset(t[..n]) == multiset(t) - multiset(t[n..]);
  }

  /** `rows.sort((curr, next) => sortRows(curr, next, key, isDesc))`, as a stable
      insertion sort: afterwards the array holds the same entries, every
      neighbouring pair in order, and all pairs in order when every entry
      has the compared value. */
  method SortByColumn(a: array<Entry>, key: SortKey, isDesc: bool)
    modifies a
    ensures multiset(a[..]) == multiset(old(a[..]))
    ensures AdjacentOrdered(a[..], key, isDesc)
    ensures AllHaveSortValue(a[..], key) ==> Sorted(a[..], key, isDesc)
  {
    var i := 0;
    while i < a.Length
      invariant 0 <= i <= a.Length
      invariant multiset(a[..]) == multiset(old(a[..]))
      invariant forall k :: 0 < k < i ==> Order(a[k - 1], a[k], key, isDesc) <= 0
    {
      InsertAt(a, i, key, isDesc);
      i := i + 1;
    }
    if AllHaveSortValue(a[..], key) {
      AdjacentOrderedIsSorted(a[..], key, isDesc);
    }
  }

  /** The value an entry is compared on, lower-cased: what decides a tie. */
  function LoweredValue(e: Entry, key: SortKey): string
  {
    Lower(SortValue(e, key).GetOr(""))
  }

  /** No two entries tie on the compared value, even ignoring case. */
  ghost predicate DistinctSortValues(s: seq<Entry>, key: SortKey)
  {
    forall i, j :: 0 <= i < j < |s| ==> LoweredValue(s[i], key) != LoweredValue(s[j], key)
  }

  /** Two entries that are each "not after" the other tie on the compared value. */
  lemma MutualOrderIsTie(a: Entry, b: Entry, key: SortKey)
    requires SortValue(a, key).Some? && SortValue(b, key).Some?
    requires Order(a, b, key, false) <= 0 && Order(b, a, key, false) <= 0
    ensures LoweredValue(a, key) == LoweredValue(b, key)
  {
    CompareIgnoringCaseSwap(SortValue(a, key).value, SortValue(b, key).value);
  }

  /** Two orderings of the same tie-free entries start with the same entry. */
  lemma SortedHeadsAgree(s: seq<Entry>, t: seq<Entry>, key: SortKey)
    requires AllHaveSortValue(s, key) && DistinctSortValues(s, key)
    requires multiset(s) == multiset(t) && s != []
    requires Sorted(s, key, false) && Sorted(t, key, false)
    ensures t != [] && s[0] == t[0]
  {
    assert |s| == |multiset(s)| == |multiset(t)| == |t|;
    assert t[0] in multiset(s) && s[0] in multiset(t);
    var k :| 0 <= k < |s| && s[k] == t[0];
    var m :| 0 <= m < |t| && t[m] == s[0];
    if k != 0 && m != 0 {
      MutualOrderIsTie(s[0], s[k], key);
      assert false;
    }
  }

  lemma TailKeepsOrder(s: seq<Entry>, key: SortKey)
    requires s != [] && AllHaveSortValue(s, key) && DistinctSortValues(s, key) && Sorted(s, key, false)
    ensures AllHaveSortValue(s[1..], key) && DistinctSortValues(s[1..], key) && Sorted(s[1..], key, false)
  {
    forall i, j | 0 <= i < j < |s[1..]|
      ensures Order(s[1..][i], s[1..][j], key, false) <= 0
      ensures LoweredValue(s[1..][i], key) != LoweredValue(s[1..][j], key)
    {
      assert s[1..][i] == s[i + 1] && s[1..][j] == s[j + 1];
    }
  }

  lemma TailKeepsSorted(t: seq<Entry>, key: SortKey)
    requires t != [] && Sorted(t, key, false)
    ensures Sorted(t[1..], key, false)
  {
    forall i, j | 0 <= i < j < |t[1..]|
      ensures Order(t[1..][i], t[1..][j], key, false) <= 0
    {
      assert t[1..][i] == t[i + 1] && t[1..][j] == t[j + 1];
    }
  }

  lemma TailSameElements<T>(s: seq<T>, t: seq<T>)
    requires s != [] && t != [] && s[0] == t[0] && multiset(s) == multiset(t)
    ensures multiset(s[1..]) == multiset(t[1..])
  {
    assert s == [s[0]] + s[1..] && t == [t[0]] + t[1..];
    assert multiset(s[1..]) == multiset(s) - multiset{s[0]};
    assert multiset(t[1..]) == multiset(t) - multiset{t[0]};
  }

  /** With no ties, there is only one ascending order of a collection of entries. */
  lemma {:induction false} SortedPermutationUnique(s: seq<Entry>, t: seq<Entry>, key: SortKey)
    requires AllHaveSortValue(s, key) && DistinctSortValues(s, key)
    requires multiset(s) == multiset(t)
    requires Sorted(s, key, false) && Sorted(t, key, false)
    ensures s == t
    decreases |s|
  {
    if s == [] {
      assert |t| == |multiset(t)| == 0;
    } else {
      SortedHeadsAgree(s, t, key);
      TailSameElements(s, t);
      TailKeepsOrder(s, key);
      TailKeepsSorted(t, key);
      SortedPermutationUnique(s[1..], t[1..], key);
    }
  }

  function Reverse<T>(s: seq<T>): (r: seq<T>)
    ensures |r| == |s|
    ensures forall i :: 0 <= i < |s| ==> r[i] == s[|s| - 1 - i]
  {
    seq(|s|, i requires 0 <= i < |s| => s[|s| - 1 - i])
  }

  lemma {:induction false} ReverseSameElements<T>(s: seq<T>)
    ensures multiset(Reverse(s)) == multiset(s)
    decreases |s|
  {
    if s != [] {
      ReverseSameElements(s[1..]);
      assert Reverse(s) == Reverse(s[1..]) + [s[0]];
      assert s == [s[0]] + s[1..];
    }
  }

  /** A descending order read backwards is an ascending order. */
  lemma ReversedDescendingIsAscending(s: seq<Entry>, key: SortKey)
    requires Sorted(s, key, true)
    ensures Sorted(Reverse(s), key, false)
  {
    var r := Reverse(s);
    forall i, j | 0 <= i < j < |r|
      ensures Order(r[i], r[j], key, false) <= 0
    {
      assert Order(s[|s| - 1 - j], s[|s| - 1 - i], key, true) <= 0;
      DescendingSwapsOperands(s[|s| - 1 - j], s[|s| - 1 - i], key);
    }
  }

  /** When every entry has the compared value and no two tie, sorting the
      same entries descending gives exactly the ascending order reversed. */
  lemma DescendingReversesAscending(up: seq<Entry>, down: seq<Entry>, key: SortKey)
    requires AllHaveSortValue(up, key) && DistinctSortValues(up, key)
    requires multiset(down) == multiset(up)
    requires Sorted(up, key, false) && Sorted(down, key, true)
    ensures down == Reverse(up)
  {
    ReversedDescendingIsAscending(down, key);
    ReverseSameElements(down);
    SortedPermutationUnique(up, Reverse(down), key);
    assert Reverse(Reverse(down)) == down;
  }
}
