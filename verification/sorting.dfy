/** The display ordering of `ls` (src/main.rs:156-163): a stable `sort_by`
    with one of three comparators, then an optional reverse. */
module Sorting {
  import opened Orderings
  import opened Catalog

  /** The `--sorting` choices. */
  datatype SortOptions = ByName | ByDate | BySize

  /** The `sort_by` closure. The date arm compares `b.last_modified` with
      itself, so it ignores `a` and always answers `Equal`; it is kept
      exactly so. */
  function Compare(key: SortOptions, a: ObjectMetadata, b: ObjectMetadata): Ordering {
    match key
    case ByName => CompareStrings(a.name, b.name)
    case ByDate => CompareStrings(b.lastModified, b.lastModified)
    case BySize => CompareNat(a.size, b.size)
  }

  /** `a` may come before `b`. */
  predicate Le(key: SortOptions, a: ObjectMetadata, b: ObjectMetadata) {
    Compare(key, a, b) != Greater
  }

  /** `a` and `b` are equivalent under the comparator. */
  predicate Equiv(key: SortOptions, a: ObjectMetadata, b: ObjectMetadata) {
    Compare(key, a, b) == Equal
  }

  /** The date arm never distinguishes two files. */
  lemma DateCompareAlwaysEqual(a: ObjectMetadata, b: ObjectMetadata)
    ensures Compare(ByDate, a, b) == Equal
  {
    CompareStringsEqualIff(b.lastModified, b.lastModified);
  }

  /** Swapping the operands flips the answer, for every comparator. */
  lemma CompareFlip(key: SortOptions, a: ObjectMetadata, b: ObjectMetadata)
    ensures Compare(key, b, a) == Flip(Compare(key, a, b))
  {
    match key
    case ByName => CompareStringsFlip(a.name, b.name);
    case ByDate =>
      DateCompareAlwaysEqual(a, b);
      DateCompareAlwaysEqual(b, a);
    case BySize =>
  }

  lemma LeTransitive(key: SortOptions, a: ObjectMetadata, b: ObjectMetadata, c: ObjectMetadata)
    requires Le(key, a, b) && Le(key, b, c)
    ensures Le(key, a, c)
  {
    match key
    case ByName => CompareStringsTransitive(a.name, b.name, c.name);
    case ByDate => DateCompareAlwaysEqual(a, c);
    case BySize =>
  }

  /** Equivalence seen through `Le`: both directions hold. */
  lemma EquivIff(key: SortOptions, a: ObjectMetadata, b: ObjectMetadata)
    ensures Equiv(key, a, b) <==> Le(key, a, b) && Le(key, b, a)
    ensures Le(key, a, b) || Le(key, b, a)
  {
    CompareFlip(key, a, b);
  }

  /** Every pair in order under the comparator. */
  ghost predicate SortedBy(key: SortOptions, s: seq<ObjectMetadata>) {
    forall i, j :: 0 <= i < j < |s| ==> Le(key, s[i], s[j])
  }

  /** The entries of `s` equivalent to `k`, in their order in `s`. A sort is
      stable when it keeps every such subsequence unchanged. */
  function EquivalentTo(key: SortOptions, s: seq<ObjectMetadata>, k: ObjectMetadata): seq<ObjectMetadata> {
    if |s| == 0 then []
    else (if Equiv(key, s[0], k) then [s[0]] else []) + EquivalentTo(key, s[1..], k)
  }

  /** Places `x` before the first entry it may precede. */
  function Insert(key: SortOptions, x: ObjectMetadata, s: seq<ObjectMetadata>): seq<ObjectMetadata> {
    if |s| == 0 then [x]
    else if Le(key, x, s[0]) then [x] + s
    else [s[0]] + Insert(key, x, s[1..])
  }

  /** `sort_by` with the given comparator, as insertion sort. */
  function SortBy(key: SortOptions, s: seq<ObjectMetadata>): seq<ObjectMetadata> {
    if |s| == 0 then [] else Insert(key, s[0], SortBy(key, s[1..]))
  }

  lemma SortedTail(key: SortOptions, s: seq<ObjectMetadata>)
    requires |s| > 0 && SortedBy(key, s)
    ensures SortedBy(key, s[1..])
  {
  }

  lemma {:induction false} InsertPermutation(key: SortOptions, x: ObjectMetadata, s: seq<ObjectMetadata>)
    ensures multiset(Insert(key, x, s)) == multiset(s) + multiset{x}
    decreases |s|
  {
    if |s| > 0 && !Le(key, x, s[0]) {
      InsertPermutation(key, x, s[1..]);
      assert s == [s[0]] + s[1..];
    }
  }

  /** A lower bound of `x` and of every entry of `s` bounds the insertion. */
  lemma {:induction false} InsertBounded(key: SortOptions, lo: ObjectMetadata, x: ObjectMetadata, s: seq<ObjectMetadata>)
    requires Le(key, lo, x)
    requires forall i :: 0 <= i < |s| ==> Le(key, lo, s[i])
    ensures forall i :: 0 <= i < |Insert(key, x, s)| ==> Le(key, lo, Insert(key, x, s)[i])
    decreases |s|
  {
    if |s| > 0 && !Le(key, x, s[0]) {
      InsertBounded(key, lo, x, s[1..]);
      var t := Insert(key, x, s[1..]);
      assert forall i :: 0 < i < |t| + 1 ==> ([s[0]] + t)[i] == t[i - 1];
    }
  }

  lemma {:induction false} InsertSorted(key: SortOptions, x: ObjectMetadata, s: seq<ObjectMetadata>)
    requires SortedBy(key, s)
    ensures SortedBy(key, Insert(key, x, s))
    decreases |s|
  {
    if |s| == 0 {
    } else if Le(key, x, s[0]) {
      var r := [x] + s;
      forall i, j | 0 <= i < j < |r| ensures Le(key, r[i], r[j]) {
        if i == 0 && j > 1 {
          LeTransitive(key, x, s[0], s[j - 1]);
        } else if i > 0 {
          assert r[i] == s[i - 1] && r[j] == s[j - 1];
        }
      }
    } else {
      SortedTail(key, s);
      var t := Insert(key, x, s[1..]);
      InsertSorted(key, x, s[1..]);
      EquivIff(key, x, s[0]);
      InsertBounded(key, s[0], x, s[1..]);
      var r := [s[0]] + t;
      forall i, j | 0 <= i < j < |r| ensures Le(key, r[i], r[j]) {
        if i > 0 {
          assert r[i] == t[i - 1] && r[j] == t[j - 1];
        } else {
          assert r[j] == t[j - 1];
        }
      }
    }
  }

  /** The sort yields an ordered permutation of its input. */
  lemma {:induction false} SortBySortedPermutation(key: SortOptions, s: seq<ObjectMetadata>)
    ensures SortedBy(key, SortBy(key, s))
    ensures multiset(SortBy(key, s)) == multiset(s)
    decreases |s|
  {
    if |s| > 0 {
      SortBySortedPermutation(key, s[1..]);
      InsertSorted(key, s[0], SortBy(key, s[1..]));
      InsertPermutation(key, s[0], SortBy(key, s[1..]));
      assert s == [s[0]] + s[1..];
    }
  }

  lemma {:induction false} InsertStable(key: SortOptions, x: ObjectMetadata, s: seq<ObjectMetadata>, k: ObjectMetadata)
    requires SortedBy(key, s)
    ensures EquivalentTo(key, Insert(key, x, s), k)
         == (if Equiv(key, x, k) then [x] else []) + EquivalentTo(key, s, k)
    decreases |s|
  {
    if |s| == 0 {
    } else if Le(key, x, s[0]) {
      assert ([x] + s)[1..] == s;
    } else {
      var t := Insert(key, x, s[1..]);
      SortedTail(key, s);
      InsertStable(key, x, s[1..], k);
      assert ([s[0]] + t)[1..] == t;
      if Equiv(key, x, k) && Equiv(key, s[0], k) {
        EquivIff(key, x, k);
        EquivIff(key, s[0], k);
        CompareFlip(key, s[0], k);
        LeTransitive(key, x, k, s[0]);
        assert false;
      }
    }
  }

  /** The sort is stable: every class of equivalent entries keeps its order. */
  lemma {:induction false} SortByStable(key: SortOptions, s: seq<ObjectMetadata>, k: ObjectMetadata)
    ensures EquivalentTo(key, SortBy(key, s), k) == EquivalentTo(key, s, k)
    decreases |s|
  {
    if |s| > 0 {
      SortByStable(key, s[1..], k);
      SortBySortedPermutation(key, s[1..]);
      InsertStable(key, s[0], SortBy(key, s[1..]), k);
    }
  }

  lemma {:induction false} EquivalentToMembers(key: SortOptions, s: seq<ObjectMetadata>, k: ObjectMetadata, y: ObjectMetadata)
    requires y in EquivalentTo(key, s, k)
    ensures y in s && Equiv(key, y, k)
    decreases |s|
  {
    if y != s[0] || !Equiv(key, s[0], k) {
      EquivalentToMembers(key, s[1..], k, y);
    }
  }

  /** The first entry of a non-empty sequence is in its own class. */
  lemma OwnClassNonEmpty(key: SortOptions, s: seq<ObjectMetadata>)
    ensures forall k :: |s| == 0 ==> EquivalentTo(key, s, k) == []
    ensures |s| > 0 ==> EquivalentTo(key, s, s[0]) != []
  {
    if |s| > 0 {
      CompareFlip(key, s[0], s[0]);
    }
  }

  /** A stable sort has only one possible outcome: two ordered sequences
      with the same classes of equivalent entries, each in the same order,
      are equal. Rust's `sort_by` is stable, so with these comparators it
      produces what `SortBy` produces. */
  lemma {:induction false} StableSortUnique(key: SortOptions, r1: seq<ObjectMetadata>, r2: seq<ObjectMetadata>)
    requires SortedBy(key, r1) && SortedBy(key, r2)
    requires forall k :: EquivalentTo(key, r1, k) == EquivalentTo(key, r2, k)
    ensures r1 == r2
    decreases |r1|
  {
    if |r1| == 0 || |r2| == 0 {
      OwnClassNonEmpty(key, r1);
      OwnClassNonEmpty(key, r2);
    } else {
      var a, b := r1[0], r2[0];
      CompareFlip(key, a, a);
      assert EquivalentTo(key, r1, a) == [a] + EquivalentTo(key, r1[1..], a);
      assert a in EquivalentTo(key, r2, a);
      EquivalentToMembers(key, r2, a, a);
      var j :| 0 <= j < |r2| && r2[j] == a;
      assert Le(key, b, a) by {
        if j == 0 { CompareFlip(key, b, b); }
      }
      CompareFlip(key, b, b);
      assert EquivalentTo(key, r2, b) == [b] + EquivalentTo(key, r2[1..], b);
      assert b in EquivalentTo(key, r1, b);
      EquivalentToMembers(key, r1, b, b);
      var i :| 0 <= i < |r1| && r1[i] == b;
      assert Le(key, a, b) by {
        if i == 0 { CompareFlip(key, a, a); }
      }
      EquivIff(key, b, a);
      assert EquivalentTo(key, r2, a) == [b] + EquivalentTo(key, r2[1..], a);
      assert EquivalentTo(key, r1, a) == EquivalentTo(key, r2, a);
      assert a == EquivalentTo(key, r1, a)[0] == EquivalentTo(key, r2, a)[0] == b;
      forall k ensures EquivalentTo(key, r1[1..], k) == EquivalentTo(key, r2[1..], k) {
        var p := if Equiv(key, a, k) then [a] else [];
        assert EquivalentTo(key, r1, k) == p + EquivalentTo(key, r1[1..], k);
        assert EquivalentTo(key, r2, k) == p + EquivalentTo(key, r2[1..], k);
        assert EquivalentTo(key, r1[1..], k) == EquivalentTo(key, r1, k)[|p|..];
      }
      SortedTail(key, r1);
      SortedTail(key, r2);
      StableSortUnique(key, r1[1..], r2[1..]);
      assert r1 == [a] + r1[1..] && r2 == [b] + r2[1..];
    }
  }

  /** Sorting by date leaves the list as it was: the comparator says
      `Equal` to every pair and the sort is stable. */
  lemma DateSortKeepsOrder(s: seq<ObjectMetadata>)
    ensures SortBy(ByDate, s) == s
  {
    var r := SortBy(ByDate, s);
    SortBySortedPermutation(ByDate, s);
    assert SortedBy(ByDate, s) by {
      forall i, j | 0 <= i < j < |s| ensures Le(ByDate, s[i], s[j]) {
        DateCompareAlwaysEqual(s[i], s[j]);
      }
    }
    forall k ensures EquivalentTo(ByDate, r, k) == EquivalentTo(ByDate, s, k) {
      SortByStable(ByDate, s, k);
    }
    StableSortUnique(ByDate, r, s);
  }

  /** `Vec::reverse`. */
  function Reverse<T>(s: seq<T>): (r: seq<T>)
    ensures |r| == |s|
    ensures forall i :: 0 <= i < |s| ==> r[i] == s[|s| - 1 - i]
  {
    if |s| == 0 then [] else Reverse(s[1..]) + [s[0]]
  }

  lemma {:induction false} ReverseMultiset<T>(s: seq<T>)
    ensures multiset(Reverse(s)) == multiset(s)
  {
    if |s| > 0 {
      ReverseMultiset(s[1..]);
      assert s == [s[0]] + s[1..];
    }
  }

  lemma ReverseAppend<T>(a: seq<T>, b: seq<T>)
    ensures Reverse(a + b) == Reverse(b) + Reverse(a)
  {
  }

  lemma {:induction false} EquivalentToAppend(key: SortOptions, a: seq<ObjectMetadata>, b: seq<ObjectMetadata>, k: ObjectMetadata)
    ensures EquivalentTo(key, a + b, k) == EquivalentTo(key, a, k) + EquivalentTo(key, b, k)
    decreases |a|
  {
    if |a| > 0 {
      EquivalentToAppend(key, a[1..], b, k);
      assert (a + b)[1..] == a[1..] + b;
    } else {
      assert a + b == b;
    }
  }

  /** Reversing a list reverses every class of equivalent entries. */
  lemma {:induction false} EquivalentToReverse(key: SortOptions, s: seq<ObjectMetadata>, k: ObjectMetadata)
    ensures EquivalentTo(key, Reverse(s), k) == Reverse(EquivalentTo(key, s, k))
    decreases |s|
  {
    if |s| > 0 {
      var head := if Equiv(key, s[0], k) then [s[0]] else [];
      EquivalentToReverse(key, s[1..], k);
      EquivalentToAppend(key, Reverse(s[1..]), [s[0]], k);
      assert EquivalentTo(key, [s[0]], k) == head;
      ReverseAppend(head, EquivalentTo(key, s[1..], k));
      assert Reverse(head) == head;
    }
  }

  /** The sorted list is an ordered, stable permutation of the input; its
      reverse is ordered the other way with every class of equivalent
      entries reversed. */
  lemma SortThenReverse(key: SortOptions, files: seq<ObjectMetadata>)
    ensures multiset(SortBy(key, files)) == multiset(files)
    ensures multiset(Reverse(SortBy(key, files))) == multiset(files)
    ensures SortedBy(key, SortBy(key, files))
    ensures var r := Reverse(SortBy(key, files));
      forall i, j :: 0 <= i < j < |r| ==> Le(key, r[j], r[i])
    ensures forall k :: EquivalentTo(key, SortBy(key, files), k) == EquivalentTo(key, files, k)
    ensures forall k :: EquivalentTo(key, Reverse(SortBy(key, files)), k) == Reverse(EquivalentTo(key, files, k))
    ensures key == ByDate ==> SortBy(key, files) == files
  {
    var sorted := SortBy(key, files);
    SortBySortedPermutation(key, files);
    ReverseMultiset(sorted);
    forall k ensures EquivalentTo(key, sorted, k) == EquivalentTo(key, files, k) {
      SortByStable(key, files, k);
    }
    forall k ensures EquivalentTo(key, Reverse(sorted), k) == Reverse(EquivalentTo(key, files, k)) {
      SortByStable(key, files, k);
      EquivalentToReverse(key, sorted, k);
    }
    if key == ByDate {
      DateSortKeepsOrder(files);
    }
  }

  /** The order files are listed in: sorted by the chosen key, then
      reversed if asked. Without `--reverse` every class of equal keys keeps
      its input order; with it, every such class comes out backwards. */
  function DisplayOrder(key: SortOptions, reverse: bool, files: seq<ObjectMetadata>): (r: seq<ObjectMetadata>)
    ensures multiset(r) == multiset(files)
    ensures !reverse ==> SortedBy(key, r)
    ensures reverse ==> forall i, j :: 0 <= i < j < |r| ==> Le(key, r[j], r[i])
    ensures !reverse ==> forall k :: EquivalentTo(key, r, k) == EquivalentTo(key, files, k)
    ensures reverse ==> forall k :: EquivalentTo(key, r, k) == Reverse(EquivalentTo(key, files, k))
    ensures key == ByDate ==> r == if reverse then Reverse(files) else files
  {
    SortThenReverse(key, files);
    var sorted := SortBy(key, files);
    if reverse then Reverse(sorted) else sorted
  }

  /** `--reverse` lists exactly the unreversed listing backwards, whatever
      the sort key. */
  lemma DisplayOrderReverse(key: SortOptions, files: seq<ObjectMetadata>)
    ensures DisplayOrder(key, true, files) == Reverse(DisplayOrder(key, false, files))
  {
  }
}
