/** qsort and bsearch on an array of count records of size bytes each. */
module QSort {
  import opened Bits
  import opened Overlay

  type Record = seq<Byte>

  /** A comparator, as a function of two records. */
  type Comparator = (Record, Record) -> int

  // ----------------------------------------------------------------- records

  lemma RecordFits(i: nat, count: nat, size: nat)
    requires i < count
    ensures 0 <= i * size && i * size + size <= count * size
  {
    MulMono(0, i, size);
    MulMono(i + 1, count, size);
    assert (i + 1) * size == i * size + size;
  }

  /** Record i of a byte sequence. */
  function RecordAt(s: seq<Byte>, size: nat, count: nat, i: nat): (r: Record)
    requires |s| == count * size && i < count
    ensures |r| == size
  {
    RecordFits(i, count, size);
    s[i * size..i * size + size]
  }

  function Records(s: seq<Byte>, size: nat, count: nat): (r: seq<Record>)
    requires |s| == count * size
    ensures |r| == count
  {
    seq(count, i requires 0 <= i < count => RecordAt(s, size, count, i))
  }

  function Swapped<T>(r: seq<T>, i: nat, j: nat): seq<T>
    requires i < |r| && j < |r|
  {
    r[i := r[j]][j := r[i]]
  }

  /** Different records do not overlap. */
  lemma Apart(i: nat, j: nat, size: nat)
    ensures i < j ==> i * size + size <= j * size
  {
    if i < j {
      MulMono(i + 1, j, size);
      assert (i + 1) * size == i * size + size;
    }
  }

  /** Exchanges two blocks of bytes, byte by byte. */
  method SwapBytes(base: array<Byte>, a: nat, b: nat, size: nat)
    requires a + size <= base.Length && b + size <= base.Length
    requires a == b || a + size <= b || b + size <= a
    modifies base
    ensures forall y :: 0 <= y < base.Length ==> base[y] == ExchangedByte(old(base[..]), a, b, size, y)
  {
    ghost var was := base[..];
    for k := 0 to size
      invariant forall y :: 0 <= y < base.Length ==> base[y] == ExchangedByte(was, a, b, k, y)
    {
      base[a + k], base[b + k] := base[b + k], base[a + k];
    }
  }

  /** Byte y after the first n bytes of the blocks at a and b were exchanged. */
  ghost function ExchangedByte(s: seq<Byte>, a: nat, b: nat, n: nat, y: nat): Byte
    requires a + n <= |s| && b + n <= |s| && y < |s|
  {
    if a <= y < a + n then s[y - a + b] else if b <= y < b + n then s[y - b + a] else s[y]
  }

  /** Exchanging the blocks of records i and j exchanges the records and nothing else. */
  lemma ExchangedRecords(s: seq<Byte>, t: seq<Byte>, size: nat, count: nat, i: nat, j: nat)
    requires |s| == |t| == count * size && i < count && j < count
    requires i * size >= 0 && i * size + size <= |s| && j * size >= 0 && j * size + size <= |s|
    requires forall y :: 0 <= y < |t| ==> t[y] == ExchangedByte(s, i * size, j * size, size, y)
    ensures Records(t, size, count) == Swapped(Records(s, size, count), i, j)
  {
    forall k | 0 <= k < count
      ensures Records(t, size, count)[k] == Swapped(Records(s, size, count), i, j)[k]
    {
      ExchangedRecord(s, t, size, count, i, j, k);
    }
  }

  lemma ExchangedRecord(s: seq<Byte>, t: seq<Byte>, size: nat, count: nat, i: nat, j: nat, k: nat)
    requires |s| == |t| == count * size && i < count && j < count && k < count
    requires i * size >= 0 && i * size + size <= |s| && j * size >= 0 && j * size + size <= |s|
    requires forall y :: 0 <= y < |t| ==> t[y] == ExchangedByte(s, i * size, j * size, size, y)
    ensures RecordAt(t, size, count, k) == RecordAt(s, size, count, if k == i then j else if k == j then i else k)
  {
    hide ExchangedByte;
    RecordFits(k, count, size);
    Apart(k, i, size);
    Apart(i, k, size);
    Apart(k, j, size);
    Apart(j, k, size);
    Apart(i, j, size);
    Apart(j, i, size);
    ExchangedBlock(s, t, size, i * size, j * size, k * size);
  }

  /** The block at c, which is one of the exchanged blocks or apart from both. */
  lemma ExchangedBlock(s: seq<Byte>, t: seq<Byte>, size: nat, a: nat, b: nat, c: nat)
    requires |s| == |t| && a + size <= |s| && b + size <= |s| && c + size <= |s|
    requires forall y :: 0 <= y < |t| ==> t[y] == ExchangedByte(s, a, b, size, y)
    requires c == a || c == b || ((c + size <= a || a + size <= c) && (c + size <= b || b + size <= c))
    requires a == b || a + size <= b || b + size <= a
    ensures var d := if c == a then b else if c == b then a else c; t[c..c + size] == s[d..d + size]
  {
    var d := if c == a then b else if c == b then a else c;
    var (u, v) := (t[c..c + size], s[d..d + size]);
    forall x | 0 <= x < size ensures u[x] == v[x] {
      assert t[c + x] == ExchangedByte(s, a, b, size, c + x);
    }
  }

  /** The records of an array. */
  ghost function Recs(base: array<Byte>, size: nat, count: nat): seq<Record>
    requires base.Length == count * size
    reads base
  {
    Records(base[..], size, count)
  }

  /** swap_idx. */
  method SwapIdx(base: array<Byte>, size: nat, count: nat, i: nat, j: nat)
    requires base.Length == count * size && i < count && j < count
    modifies base
    ensures Recs(base, size, count) == Swapped(old(Recs(base, size, count)), i, j)
  {
    hide Records, Swapped;
    RecordFits(i, count, size);
    RecordFits(j, count, size);
    Apart(i, j, size);
    Apart(j, i, size);
    ghost var was := base[..];
    SwapBytes(base, i * size, j * size, size);
    ExchangedRecords(was, base[..], size, count, i, j);
  }

  /** compare_idx. */
  method CompareIdx(base: array<Byte>, size: nat, count: nat, compare: Comparator, i: nat, j: nat) returns (r: int)
    requires base.Length == count * size && i < count && j < count
    ensures r == compare(Recs(base, size, count)[i], Recs(base, size, count)[j])
  {
    RecordFits(i, count, size);
    RecordFits(j, count, size);
    r := compare(base[i * size..i * size + size], base[j * size..j * size + size]);
    assert base[..][i * size..i * size + size] == base[i * size..i * size + size];
    assert base[..][j * size..j * size + size] == base[j * size..j * size + size];
  }

  // --------------------------------------------------------------- partition

  /** t is r with the elements of [begin, end) permuted. */
  ghost predicate Permutes<T>(r: seq<T>, t: seq<T>, begin: nat, end: nat) {
    && begin <= end <= |r| == |t|
    && r[..begin] == t[..begin] && r[end..] == t[end..]
    && multiset(r[begin..end]) == multiset(t[begin..end])
  }

  lemma PermutesTrans<T>(r: seq<T>, s: seq<T>, t: seq<T>, begin: nat, end: nat)
    requires Permutes(r, s, begin, end) && Permutes(s, t, begin, end)
    ensures Permutes(r, t, begin, end)
  {
  }

  lemma SwapPermutes<T>(r: seq<T>, i: nat, j: nat, begin: nat, end: nat)
    requires begin <= i < end <= |r| && begin <= j < end
    ensures Permutes(r, Swapped(r, i, j), begin, end)
  {
    var (m, t) := (r[begin..end], Swapped(r, i, j));
    assert t[begin..end] == Swapped(m, i - begin, j - begin);
    SwapMultiset(m, i - begin, j - begin);
  }

  lemma SwapMultiset<T>(m: seq<T>, i: nat, j: nat)
    requires i < |m| && j < |m|
    ensures multiset(Swapped(m, i, j)) == multiset(m)
  {
    assert multiset(m[i := m[j]]) == multiset(m) - multiset{m[i]} + multiset{m[j]};
  }

  /** What a partition pass has established: r[begin..i) at most the pivot, r[i..j) above it. */
  ghost predicate Divided(r: seq<Record>, compare: Comparator, begin: nat, i: nat, j: nat, pivot: nat) {
    && begin <= i <= j <= pivot < |r|
    && (forall k :: begin <= k < i ==> compare(r[k], r[pivot]) <= 0)
    && (forall k :: i <= k < j ==> compare(r[k], r[pivot]) > 0)
  }

  lemma DividedSwap(r: seq<Record>, compare: Comparator, begin: nat, i: nat, j: nat, pivot: nat)
    requires Divided(r, compare, begin, i, j, pivot) && j < pivot && compare(r[j], r[pivot]) <= 0
    ensures Divided(Swapped(r, i, j), compare, begin, i + 1, j + 1, pivot)
  {
  }

  /** Moves the pivot, the last record, between those that compare at most equal to it and the others. */
  method Partition(base: array<Byte>, size: nat, count: nat, compare: Comparator, begin: nat, end: nat) returns (p: nat)
    requires base.Length == count * size && begin < end <= count
    modifies base
    ensures begin <= p < end
    ensures Permutes(old(Recs(base, size, count)), Recs(base, size, count), begin, end)
    ensures var r := Recs(base, size, count);
            && (forall k :: begin <= k < p ==> compare(r[k], r[p]) <= 0)
            && (forall k :: p < k < end ==> compare(r[k], r[p]) > 0)
  {
    hide Records, Swapped, Divided, Permutes;
    ghost var r0 := Recs(base, size, count);
    var pivot := end - 1;
    var i: nat := begin;
    DividedStart(r0, compare, begin, pivot, end);
    for j := begin to pivot
      invariant Divided(Recs(base, size, count), compare, begin, i, j, pivot)
      invariant Permutes(r0, Recs(base, size, count), begin, end)
      invariant begin <= i <= j
    {
      ghost var r := Recs(base, size, count);
      var c := CompareIdx(base, size, count, compare, j, pivot);
      if c <= 0 {
        SwapIdx(base, size, count, i, j);
        DividedSwap(r, compare, begin, i, j, pivot);
        SwapPermutes(r, i, j, begin, end);
        PermutesTrans(r0, r, Recs(base, size, count), begin, end);
        i := i + 1;
      } else {
        DividedNext(r, compare, begin, i, j, pivot);
      }
    }
    ghost var r := Recs(base, size, count);
    SwapIdx(base, size, count, i, pivot);
    SwapPermutes(r, i, pivot, begin, end);
    PermutesTrans(r0, r, Recs(base, size, count), begin, end);
    DividedEnd(r, compare, begin, i, pivot);
    p := i;
  }

  lemma DividedStart(r: seq<Record>, compare: Comparator, begin: nat, pivot: nat, end: nat)
    requires begin <= pivot < |r| && pivot < end <= |r|
    ensures Divided(r, compare, begin, begin, begin, pivot) && Permutes(r, r, begin, end)
  {
  }

  lemma DividedNext(r: seq<Record>, compare: Comparator, begin: nat, i: nat, j: nat, pivot: nat)
    requires Divided(r, compare, begin, i, j, pivot) && j < pivot && compare(r[j], r[pivot]) > 0
    ensures Divided(r, compare, begin, i, j + 1, pivot)
  {
  }

  lemma DividedEnd(r: seq<Record>, compare: Comparator, begin: nat, i: nat, pivot: nat)
    requires Divided(r, compare, begin, i, pivot, pivot)
    ensures var t := Swapped(r, i, pivot);
            && (forall k :: begin <= k < i ==> compare(t[k], t[i]) <= 0)
            && (forall k :: i < k < pivot + 1 ==> compare(t[k], t[i]) > 0)
  {
  }

  // -------------------------------------------------------------------- sort

  predicate IsRecord(x: Record, size: nat) { |x| == size }

  /** The comparator orders all records of this size, equal ones possibly tied. */
  ghost predicate IsPreorder(compare: Comparator, size: nat) {
    && (forall x: Record, y: Record :: IsRecord(x, size) && IsRecord(y, size) ==>
          (compare(x, y) > 0 <==> compare(y, x) < 0))
    && (forall x: Record, y: Record, z: Record :: IsRecord(x, size) && IsRecord(y, size) && IsRecord(z, size) ==>
          compare(x, y) <= 0 && compare(y, z) <= 0 ==> compare(x, z) <= 0)
  }

  ghost predicate AreRecords(r: seq<Record>, size: nat) { forall k :: 0 <= k < |r| ==> IsRecord(r[k], size) }

  lemma RecordsAre(s: seq<Byte>, size: nat, count: nat)
    requires |s| == count * size
    ensures AreRecords(Records(s, size, count), size)
  {
    hide RecordAt;
  }

  /** Comparing first bytes is such an order, and ties records that agree in them. */
  lemma FirstBytes(size: nat)
    ensures IsPreorder((x: Record, y: Record) => if x == [] || y == [] then 0 else (x[0] as int) - y[0], size)
  {
  }

  ghost predicate Sorted(r: seq<Record>, compare: Comparator, begin: nat, end: nat) {
    end <= |r| && forall a, b :: begin <= a < b < end ==> compare(r[a], r[b]) <= 0
  }

  /** Permuting a range keeps what holds of all its elements. */
  lemma PermutedAll<T>(r: seq<T>, t: seq<T>, begin: nat, end: nat, k: nat) returns (i: nat)
    requires Permutes(r, t, begin, end) && begin <= k < end
    ensures begin <= i < end && r[i] == t[k]
  {
    assert t[begin..end][k - begin] == t[k];
    assert t[k] in multiset(t[begin..end]);
    assert t[k] in r[begin..end];
    var x :| 0 <= x < |r[begin..end]| && r[begin..end][x] == t[k];
    i := begin + x;
  }

  lemma PermutesWider<T>(r: seq<T>, t: seq<T>, begin: nat, end: nat, lo: nat, hi: nat)
    requires Permutes(r, t, begin, end) && lo <= begin && end <= hi <= |r|
    ensures Permutes(r, t, lo, hi)
  {
    assert r[lo..hi] == r[..begin][lo..] + r[begin..end] + r[end..][..hi - end];
    assert t[lo..hi] == t[..begin][lo..] + t[begin..end] + t[end..][..hi - end];
    assert r[..lo] == r[..begin][..lo] && t[..lo] == t[..begin][..lo];
    assert r[hi..] == r[end..][hi - end..] && t[hi..] == t[end..][hi - end..];
  }

  /** A record outside the permuted range stays. */
  lemma PermutesOutside<T>(r: seq<T>, t: seq<T>, begin: nat, end: nat, k: nat)
    requires Permutes(r, t, begin, end) && k < |r| && !(begin <= k < end)
    ensures r[k] == t[k]
  {
    if k < begin {
      assert r[..begin][k] == t[..begin][k];
    } else {
      assert r[end..][k - end] == t[end..][k - end];
    }
  }

  /** Sorted halves around the pivot make a sorted range. */
  lemma Assembled(r1: seq<Record>, r2: seq<Record>, r3: seq<Record>, compare: Comparator, begin: nat, p: nat, end: nat,
                  size: nat)
    requires IsPreorder(compare, size) && AreRecords(r1, size) && AreRecords(r3, size) && begin <= p < end <= |r1|
    requires forall k :: begin <= k < p ==> compare(r1[k], r1[p]) <= 0
    requires forall k :: p < k < end ==> compare(r1[k], r1[p]) > 0
    requires Permutes(r1, r2, begin, p) && Sorted(r2, compare, begin, p)
    requires Permutes(r2, r3, p + 1, end) && Sorted(r3, compare, p + 1, end)
    ensures Sorted(r3, compare, begin, end)
  {
    hide Permutes;
    PermutesLength(r1, r2, begin, p);
    PermutesLength(r2, r3, p + 1, end);
    forall a, b | begin <= a < b < end ensures compare(r3[a], r3[b]) <= 0 {
      if b < p {
        PermutesOutside(r2, r3, p + 1, end, a);
        PermutesOutside(r2, r3, p + 1, end, b);
      } else if p < a {
      } else {
        if a < p { BelowPivot(r1, r2, r3, compare, begin, p, end, a); }
        if p < b { AbovePivot(r1, r2, r3, compare, begin, p, end, b, size); }
        PermutesOutside(r1, r2, begin, p, p);
        PermutesOutside(r2, r3, p + 1, end, p);
      }
    }
  }

  lemma PermutesLength<T>(r: seq<T>, t: seq<T>, begin: nat, end: nat)
    requires Permutes(r, t, begin, end)
    ensures |r| == |t|
  {
  }

  lemma BelowPivot(r1: seq<Record>, r2: seq<Record>, r3: seq<Record>, compare: Comparator, begin: nat, p: nat, end: nat,
                   a: nat)
    requires begin <= a < p < end <= |r1| == |r2| == |r3|
    requires forall k :: begin <= k < p ==> compare(r1[k], r1[p]) <= 0
    requires Permutes(r1, r2, begin, p) && Permutes(r2, r3, p + 1, end)
    ensures compare(r3[a], r1[p]) <= 0
  {
    hide Permutes;
    PermutesOutside(r2, r3, p + 1, end, a);
    var i := PermutedAll(r1, r2, begin, p, a);
  }

  lemma AbovePivot(r1: seq<Record>, r2: seq<Record>, r3: seq<Record>, compare: Comparator, begin: nat, p: nat, end: nat,
                   b: nat, size: nat)
    requires IsPreorder(compare, size) && AreRecords(r1, size) && AreRecords(r3, size)
    requires begin <= p < b < end <= |r1| == |r2| == |r3|
    requires forall k :: p < k < end ==> compare(r1[k], r1[p]) > 0
    requires Permutes(r1, r2, begin, p) && Permutes(r2, r3, p + 1, end)
    ensures compare(r1[p], r3[b]) <= 0
  {
    hide Permutes;
    var i := PermutedAll(r2, r3, p + 1, end, b);
    PermutesOutside(r1, r2, begin, p, i);
  }

  /** quick_sort: a permutation of whole records for every comparator, sorted for every preorder. */
  method QuickSort(base: array<Byte>, size: nat, count: nat, compare: Comparator, begin: nat, end: nat)
    requires base.Length == count * size && begin <= end <= count
    modifies base
    ensures Permutes(old(Recs(base, size, count)), Recs(base, size, count), begin, end)
    ensures IsPreorder(compare, size) ==> Sorted(Recs(base, size, count), compare, begin, end)
    decreases end - begin
  {
    hide Records, Permutes, IsPreorder, Sorted;
    ghost var r0 := Recs(base, size, count);
    if end - begin <= 1 {
      ShortRange(r0, compare, begin, end);
      return;
    }
    var p := Partition(base, size, count, compare, begin, end);
    ghost var s1 := base[..];
    ghost var r1 := Recs(base, size, count);
    QuickSort(base, size, count, compare, begin, p);
    ghost var r2 := Recs(base, size, count);
    QuickSort(base, size, count, compare, p + 1, end);
    ghost var r3 := Recs(base, size, count);
    PermutesWider(r1, r2, begin, p, begin, end);
    PermutesWider(r2, r3, p + 1, end, begin, end);
    PermutesTrans(r0, r1, r2, begin, end);
    PermutesTrans(r0, r2, r3, begin, end);
    if IsPreorder(compare, size) {
      RecordsAre(s1, size, count);
      RecordsAre(base[..], size, count);
      Assembled(r1, r2, r3, compare, begin, p, end, size);
    }
  }

  lemma ShortRange(r: seq<Record>, compare: Comparator, begin: nat, end: nat)
    requires begin <= end <= |r| && end - begin <= 1
    ensures Permutes(r, r, begin, end) && Sorted(r, compare, begin, end)
  {
  }

  /** qsort. */
  method Qsort(base: array<Byte>, count: nat, size: nat, compare: Comparator)
    requires base.Length == count * size
    modifies base
    ensures multiset(Recs(base, size, count)) == multiset(old(Recs(base, size, count)))
    ensures IsPreorder(compare, size) ==> Sorted(Recs(base, size, count), compare, 0, count)
  {
    hide Records, IsPreorder, Sorted;
    ghost var r0 := Recs(base, size, count);
    QuickSort(base, size, count, compare, 0, count);
    ghost var r := Recs(base, size, count);
    assert r0[0..count] == r0 && r[0..count] == r;
  }

  // ----------------------------------------------------------------- bsearch

  /** The condition of section 7.22.5.1 of C11: first the records below the key, then the equal ones, then those
      above it. The key need not be a record. */
  ghost predicate Partitioned<K>(key: K, r: seq<Record>, compare: (K, Record) -> int) {
    forall i, j :: 0 <= i < j < |r| ==>
      && (compare(key, r[j]) > 0 ==> compare(key, r[i]) > 0)
      && (compare(key, r[i]) < 0 ==> compare(key, r[j]) < 0)
  }

  /** bsearch: whatever it returns compares equal; on records partitioned by the key it finds one whenever there is
      one. */
  method Bsearch<K>(key: K, base: array<Byte>, count: nat, size: nat, compare: (K, Record) -> int)
      returns (found: bool, at: nat)
    requires base.Length == count * size
    ensures found ==> at < count && compare(key, Recs(base, size, count)[at]) == 0
    ensures Partitioned(key, Recs(base, size, count), compare) ==>
              (found <==> exists k :: 0 <= k < count && compare(key, Recs(base, size, count)[k]) == 0)
  {
    hide Records, Partitioned;
    ghost var r := Recs(base, size, count);
    ghost var ordered := Partitioned(key, r, compare);
    var i, j := 0, count;
    found, at := false, 0;
    while i < j
      invariant 0 <= i <= j <= count
      invariant ordered ==> forall k :: 0 <= k < i ==> compare(key, r[k]) != 0
      invariant ordered ==> forall k :: j <= k < count ==> compare(key, r[k]) != 0
    {
      var k := (j - i) / 2;
      var m := i + k;
      RecordFits(m, count, size);
      var element := base[m * size..m * size + size];
      assert element == r[m] by { ElementIs(base, size, count, m); }
      var res := compare(key, element);
      if ordered { OneSide(key, r, compare, m); }
      if res < 0 {
        j := i + k;
      } else if res > 0 {
        i := i + k + 1;
      } else {
        return true, m;
      }
    }
  }

  lemma ElementIs(base: array<Byte>, size: nat, count: nat, m: nat)
    requires base.Length == count * size && m < count && 0 <= m * size && m * size + size <= base.Length
    ensures base[m * size..m * size + size] == Recs(base, size, count)[m]
  {
    assert base[..][m * size..m * size + size] == base[m * size..m * size + size];
  }

  /** A comparison rules out one side. */
  lemma OneSide<K>(key: K, r: seq<Record>, compare: (K, Record) -> int, m: nat)
    requires Partitioned(key, r, compare) && m < |r|
    ensures compare(key, r[m]) < 0 ==> forall k :: m <= k < |r| ==> compare(key, r[k]) != 0
    ensures compare(key, r[m]) > 0 ==> forall k :: 0 <= k <= m ==> compare(key, r[k]) != 0
  {
  }

  /** Records sorted by a preorder, as qsort leaves them, are partitioned by every record. */
  lemma SortedPartitions(key: Record, r: seq<Record>, compare: Comparator, size: nat)
    requires IsPreorder(compare, size) && IsRecord(key, size) && AreRecords(r, size) && Sorted(r, compare, 0, |r|)
    ensures Partitioned(key, r, compare)
  {
    forall i, j | 0 <= i < j < |r|
      ensures compare(key, r[j]) > 0 ==> compare(key, r[i]) > 0
      ensures compare(key, r[i]) < 0 ==> compare(key, r[j]) < 0
    {
      assert compare(r[i], r[j]) <= 0;
      var (a, b) := (compare(r[j], key), compare(r[i], key));
    }
  }
}
