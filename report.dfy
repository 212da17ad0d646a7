/**
  * The report ordering: before each category sheet is written, its list is sorted with
  * Collections.sort by the lower-cased name compared with String.compareTo. Collections.sort
  * is stable, so its result is the stable sort of the list; it is modelled here by an
  * in-place insertion sort on an array that swaps only neighbours that are strictly out of order.
  */
module Report {
  import opened Text
  import opened Seqs
  import opened Registry

  /** `o.get(name).toLowerCase()` */
  function SortKey(r: TypeRecord): string {
    Lower(r.name)
  }

  predicate KeyLe(a: TypeRecord, b: TypeRecord) {
    LexLe(SortKey(a), SortKey(b))
  }

  predicate SortedByName(s: seq<TypeRecord>) {
    forall i, j :: 0 <= i < j < |s| ==> KeyLe(s[i], s[j])
  }

  /** Inserts `x` after every element whose key is not greater than its own. */
  function Insert(s: seq<TypeRecord>, x: TypeRecord): seq<TypeRecord>
  {
    if s == [] || KeyLe(s[|s| - 1], x) then s + [x]
    else Insert(s[..|s| - 1], x) + [s[|s| - 1]]
  }

  /** The stable sort by lower-cased name. */
  function SortByName(s: seq<TypeRecord>): seq<TypeRecord>
  {
    if s == [] then [] else Insert(SortByName(s[..|s| - 1]), s[|s| - 1])
  }

  /** The rows with a given sort key, in order. */
  function WithKey(s: seq<TypeRecord>, k: string): seq<TypeRecord>
  {
    if s == [] then []
    else WithKey(s[..|s| - 1], k) + (if SortKey(s[|s| - 1]) == k then [s[|s| - 1]] else [])
  }

  // ---------------------------------------------------------------------------
  // Properties of the stable sort

  lemma InsertMultiset(s: seq<TypeRecord>, x: TypeRecord)
    ensures multiset(Insert(s, x)) == multiset(s) + multiset{x}
  {
    if s != [] && !KeyLe(s[|s| - 1], x) {
      InsertMultiset(s[..|s| - 1], x);
      assert s == s[..|s| - 1] + [s[|s| - 1]];
    }
  }

  /** The result is a permutation of the input. */
  lemma {:induction false} SortByNamePermutes(s: seq<TypeRecord>)
    ensures multiset(SortByName(s)) == multiset(s)
  {
    if s != [] {
      SortByNamePermutes(s[..|s| - 1]);
      InsertMultiset(SortByName(s[..|s| - 1]), s[|s| - 1]);
      assert s == s[..|s| - 1] + [s[|s| - 1]];
    }
  }

  lemma {:induction false} InsertSorted(s: seq<TypeRecord>, x: TypeRecord)
    requires SortedByName(s)
    ensures SortedByName(Insert(s, x))
    ensures |Insert(s, x)| == |s| + 1
    ensures forall y :: y in Insert(s, x) <==> y in s || y == x
  {
    if s == [] {
    } else if KeyLe(s[|s| - 1], x) {
      var r := s + [x];
      forall i, j | 0 <= i < j < |r|
        ensures KeyLe(r[i], r[j])
      {
        if j == |s| && i < |s| - 1 {
          LexLeTransitive(SortKey(s[i]), SortKey(s[|s| - 1]), SortKey(x));
        }
      }
    } else {
      var init, last := s[..|s| - 1], s[|s| - 1];
      InsertSorted(init, x);
      var t := Insert(init, x);
      LexLeTotal(SortKey(last), SortKey(x));
      forall y | y in t
        ensures KeyLe(y, last)
      {
        if y != x {
          var i :| 0 <= i < |init| && init[i] == y;
        }
      }
      var r := t + [last];
      forall i, j | 0 <= i < j < |r|
        ensures KeyLe(r[i], r[j])
      {
        if j < |t| {
          assert r[i] == t[i] && r[j] == t[j];
        } else {
          assert r[i] in t;
        }
      }
    }
  }

  /** The result is sorted by lower-cased name. */
  lemma {:induction false} SortByNameSorted(s: seq<TypeRecord>)
    ensures SortedByName(SortByName(s))
    ensures |SortByName(s)| == |s|
  {
    if s != [] {
      SortByNameSorted(s[..|s| - 1]);
      InsertSorted(SortByName(s[..|s| - 1]), s[|s| - 1]);
    }
  }

  /** The rows of `x`'s own key, `[x]`, or none. */
  function Keyed(x: TypeRecord, k: string): seq<TypeRecord> {
    if SortKey(x) == k then [x] else []
  }

  lemma WithKeySnoc(s: seq<TypeRecord>, x: TypeRecord, k: string)
    ensures WithKey(s + [x], k) == WithKey(s, k) + Keyed(x, k)
  {
    assert (s + [x])[..|s|] == s;
  }

  /** Inserting `x` adds it to its own key's rows, after them, and leaves the other keys alone. */
  lemma {:induction false} InsertWithKey(s: seq<TypeRecord>, x: TypeRecord, k: string)
    ensures WithKey(Insert(s, x), k) == WithKey(s, k) + Keyed(x, k)
  {
    if s == [] || KeyLe(s[|s| - 1], x) {
      WithKeySnoc(s, x, k);
    } else {
      var init, last := s[..|s| - 1], s[|s| - 1];
      var t := Insert(init, x);
      assert Insert(s, x) == t + [last];
      InsertWithKey(init, x, k);
      WithKeySnoc(t, last, k);
      assert s == init + [last];
      WithKeySnoc(init, last, k);
      LexLeReflexive(SortKey(x));
      assert Keyed(x, k) == [] || Keyed(last, k) == [];
      AppendAssoc(WithKey(init, k), Keyed(x, k), Keyed(last, k));
      AppendAssoc(WithKey(init, k), Keyed(last, k), Keyed(x, k));
    }
  }

  /** Stability: the rows sharing a lower-cased name keep their relative order. */
  lemma {:induction false} SortByNameStable(s: seq<TypeRecord>, k: string)
    ensures WithKey(SortByName(s), k) == WithKey(s, k)
  {
    if s != [] {
      SortByNameStable(s[..|s| - 1], k);
      InsertWithKey(SortByName(s[..|s| - 1]), s[|s| - 1], k);
    }
  }

  /** A sorted list that keeps every key's rows in order is the stable sort: the sort is determined. */
  lemma {:induction false} StableSortUnique(s: seq<TypeRecord>, r: seq<TypeRecord>)
    requires SortedByName(r)
    requires forall k :: WithKey(r, k) == WithKey(s, k)
    ensures r == SortByName(s)
    decreases |s|
  {
    SortByNameSorted(s);
    forall k
      ensures WithKey(SortByName(s), k) == WithKey(r, k)
    {
      SortByNameStable(s, k);
    }
    SortedSameKeysEqual(SortByName(s), r);
  }

  /** Two sorted lists with the same rows per key are equal. */
  lemma {:induction false} SortedSameKeysEqual(a: seq<TypeRecord>, b: seq<TypeRecord>)
    requires SortedByName(a) && SortedByName(b)
    requires forall k :: WithKey(a, k) == WithKey(b, k)
    ensures a == b
    decreases |a| + |b|
  {
    if a == [] || b == [] {
      if a != [] {
        WithKeyLast(a);
      } else if b != [] {
        WithKeyLast(b);
      }
    } else {
      var a', x := a[..|a| - 1], a[|a| - 1];
      var b', y := b[..|b| - 1], b[|b| - 1];
      assert a == a' + [x] && b == b' + [y];
      SameLastRow(a, b);
      forall k
        ensures WithKey(a', k) == WithKey(b', k)
      {
        WithKeySnoc(a', x, k);
        WithKeySnoc(b', x, k);
        SuffixCancel(WithKey(a', k), WithKey(b', k), Keyed(x, k));
      }
      SortedPrefix(a);
      SortedPrefix(b);
      SortedSameKeysEqual(a', b');
    }
  }

  /** A key no later than the last row's key. */
  lemma KeyBelowLast(s: seq<TypeRecord>, x: TypeRecord)
    requires SortedByName(s) && x in s
    ensures KeyLe(x, s[|s| - 1])
  {
    var i :| 0 <= i < |s| && s[i] == x;
    if i == |s| - 1 {
      LexLeReflexive(SortKey(x));
    }
  }

  /** Two non-empty sorted lists with the same rows per key end in the same row. */
  lemma SameLastRow(a: seq<TypeRecord>, b: seq<TypeRecord>)
    requires SortedByName(a) && SortedByName(b) && a != [] && b != []
    requires forall k :: WithKey(a, k) == WithKey(b, k)
    ensures a[|a| - 1] == b[|b| - 1]
  {
    var x, y := a[|a| - 1], b[|b| - 1];
    WithKeyLast(a);
    WithKeyLast(b);
    assert WithKey(a, SortKey(x)) == WithKey(b, SortKey(x));
    assert WithKey(a, SortKey(y)) == WithKey(b, SortKey(y));
    WithKeyMember(b, SortKey(x), x);
    WithKeyMember(a, SortKey(y), y);
    KeyBelowLast(b, x);
    KeyBelowLast(a, y);
    LexLeAntisymmetric(SortKey(x), SortKey(y));
  }

  lemma SortedPrefix(s: seq<TypeRecord>)
    requires SortedByName(s) && s != []
    ensures SortedByName(s[..|s| - 1])
  {
  }

  /** The last row of a list is the last row of its key. */
  lemma WithKeyLast(s: seq<TypeRecord>)
    requires s != []
    ensures WithKey(s, SortKey(s[|s| - 1])) != []
    ensures WithKey(s, SortKey(s[|s| - 1]))[|WithKey(s, SortKey(s[|s| - 1]))| - 1] == s[|s| - 1]
  {
  }

  /** Every row of a key's rows is a row of the list. */
  lemma {:induction false} WithKeyMember(s: seq<TypeRecord>, k: string, x: TypeRecord)
    requires x in WithKey(s, k)
    ensures x in s && SortKey(x) == k
  {
    if s != [] {
      var init, last := s[..|s| - 1], s[|s| - 1];
      if x in WithKey(init, k) {
        WithKeyMember(init, k, x);
        var i :| 0 <= i < |init| && init[i] == x;
        assert s[i] == x;
      }
    }
  }

  // ---------------------------------------------------------------------------
  // The in-place sort

  /** Collections.sort(list, by lower-cased name): the array ends up holding the stable sort of its contents. */
  method SortRows(a: array<TypeRecord>)
    modifies a
    ensures a[..] == SortByName(old(a[..]))
  {
    ghost var input := a[..];
    var i := 0;
    while i < a.Length
      invariant 0 <= i <= a.Length
      invariant a[..] == SortByName(input[..i]) + input[i..]
    {
      SortStepBefore(input, i, a[..]);
      InsertRow(a, i);
      SortStepAfter(input, i);
      i := i + 1;
    }
    assert input[..a.Length] == input;
  }

  /** Before step `i`, the array splits into the sorted prefix, the next row and the untouched rest. */
  lemma SortStepBefore(input: seq<TypeRecord>, i: nat, current: seq<TypeRecord>)
    requires i < |input| == |current|
    requires current == SortByName(input[..i]) + input[i..]
    ensures current[..i] == SortByName(input[..i])
    ensures current[i] == input[i] && current[i + 1..] == input[i + 1..]
  {
    SortByNameLength(input[..i]);
    SplitAt(SortByName(input[..i]), input[i..]);
  }

  /** Inserting the next row extends the sorted prefix by one. */
  lemma SortStepAfter(input: seq<TypeRecord>, i: nat)
    requires i < |input|
    ensures Insert(SortByName(input[..i]), input[i]) == SortByName(input[..i + 1])
  {
    assert input[..i + 1][..i] == input[..i];
  }

  lemma {:induction false} SortByNameLength(s: seq<TypeRecord>)
    ensures |SortByName(s)| == |s|
  {
    SortByNameSorted(s);
  }



  /** The rows of `sorted` with `x` standing at index `j`. */
  function Placed(sorted: seq<TypeRecord>, j: nat, x: TypeRecord): seq<TypeRecord>
    requires j <= |sorted|
  {
    sorted[..j] + [x] + sorted[j..]
  }

  /** Moves `a[i]` left past the rows before it whose keys are greater. */
  method InsertRow(a: array<TypeRecord>, i: nat)
    requires i < a.Length
    modifies a
    ensures a[..] == Insert(old(a[..i]), old(a[i])) + old(a[i + 1..])
  {
    ghost var sorted, rest := a[..i], a[i + 1..];
    var x := a[i];
    assert a[..] == Placed(sorted, i, x) + rest;
    assert sorted[..i] == sorted && sorted[i..] == [];
    var j := i;
    while j > 0 && !KeyLe(a[j - 1], x)
      invariant 0 <= j <= i
      invariant a[..] == Placed(sorted, j, x) + rest
      invariant Insert(sorted, x) == Insert(sorted[..j], x) + sorted[j..]
    {
      PlacedAt(sorted, j, x, rest);
      InsertStep(sorted, j, x);
      ghost var before := a[..];
      a[j - 1], a[j] := x, a[j - 1];
      assert a[..] == before[j - 1 := x][j := sorted[j - 1]];
      SwapPlaced(sorted, j, x, rest);
      j := j - 1;
    }
    if j > 0 {
      PlacedAt(sorted, j, x, rest);
    }
    InsertDone(sorted, j, x);
  }

  lemma PlacedAt(sorted: seq<TypeRecord>, j: nat, x: TypeRecord, rest: seq<TypeRecord>)
    requires 0 < j <= |sorted|
    ensures (Placed(sorted, j, x) + rest)[j - 1] == sorted[j - 1]
    ensures (Placed(sorted, j, x) + rest)[j] == x
  {
  }

  /** Swapping the row at `j` with its left neighbour places it at `j - 1`. */
  lemma SwapPlaced(sorted: seq<TypeRecord>, j: nat, x: TypeRecord, rest: seq<TypeRecord>)
    requires 0 < j <= |sorted|
    ensures (Placed(sorted, j, x) + rest)[j - 1 := x][j := sorted[j - 1]] == Placed(sorted, j - 1, x) + rest
  {
    assert sorted[j - 1..] == [sorted[j - 1]] + sorted[j..];
    assert sorted[..j] == sorted[..j - 1] + [sorted[j - 1]];
  }

  /** One swap moves the inserted row one place to the left. */
  lemma InsertStep(sorted: seq<TypeRecord>, j: nat, x: TypeRecord)
    requires 0 < j <= |sorted|
    requires !KeyLe(sorted[j - 1], x)
    ensures Insert(sorted[..j], x) + sorted[j..] == Insert(sorted[..j - 1], x) + sorted[j - 1..]
  {
    assert sorted[..j][..j - 1] == sorted[..j - 1];
    assert sorted[j - 1..] == [sorted[j - 1]] + sorted[j..];
    AppendAssoc(Insert(sorted[..j - 1], x), [sorted[j - 1]], sorted[j..]);
  }

  /** The row stops after the rows whose keys are not greater than its own. */
  lemma InsertDone(sorted: seq<TypeRecord>, j: nat, x: TypeRecord)
    requires j <= |sorted|
    requires j == 0 || KeyLe(sorted[j - 1], x)
    ensures Insert(sorted[..j], x) + sorted[j..] == Placed(sorted, j, x)
  {
  }

  /** The report writes each category in sorted order, a permutation of its rows that keeps equal names in order. */
  lemma ReportOrder(rows: seq<TypeRecord>)
    ensures SortedByName(SortByName(rows))
    ensures multiset(SortByName(rows)) == multiset(rows)
    ensures forall k :: WithKey(SortByName(rows), k) == WithKey(rows, k)
  {
    SortByNameSorted(rows);
    SortByNamePermutes(rows);
    forall k
      ensures WithKey(SortByName(rows), k) == WithKey(rows, k)
    {
      SortByNameStable(rows, k);
    }
  }
}
