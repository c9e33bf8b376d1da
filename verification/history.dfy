/** `GET /history-all/`: every assessment, most recent audit year first.
    The relative order of records sharing a year is left to the storage
    engine; this model keeps an insertion order. */
module History {
  import opened Records

  /** Audit years never increase along `s`. */
  ghost predicate NewestFirst(s: Store) {
    forall i, j :: 0 <= i < j < |s| ==> s[i].auditYear >= s[j].auditYear
  }

  function Years(s: Store): (ys: seq<int>)
    ensures |ys| == |s|
    ensures forall i :: 0 <= i < |s| ==> ys[i] == s[i].auditYear
  {
    seq(|s|, i requires 0 <= i < |s| => s[i].auditYear)
  }

  /** `h` can head `rest` when `rest` rearranges `t` plus `a` and `h` is no
      older than any of them. */
  lemma ConsNewestFirst(h: Assessment, a: Assessment, t: Store, rest: Store)
    requires NewestFirst([h] + t) && NewestFirst(rest)
    requires a.auditYear < h.auditYear
    requires multiset(rest) == multiset(t) + multiset{a}
    ensures NewestFirst([h] + rest)
  {
    forall k | 0 <= k < |rest| ensures h.auditYear >= rest[k].auditYear {
      var y := rest[k];
      assert y in multiset(rest);
      if y != a {
        assert y in multiset(t);
        var j :| 0 <= j < |t| && t[j] == y;
        assert ([h] + t)[0] == h && ([h] + t)[j + 1] == y;
      }
    }
    var r := [h] + rest;
    forall i, j | 0 <= i < j < |r| ensures r[i].auditYear >= r[j].auditYear {
      if i > 0 {
        assert r[i] == rest[i - 1] && r[j] == rest[j - 1];
      }
    }
  }

  /** Places `a` into an already ordered history. */
  function InsertByYear(a: Assessment, s: Store): (r: Store)
    requires NewestFirst(s)
    ensures NewestFirst(r)
    ensures multiset(r) == multiset(s) + multiset{a}
  {
    if |s| == 0 || s[0].auditYear <= a.auditYear then [a] + s
    else
      var rest := InsertByYear(a, s[1..]);
      ConsNewestFirst(s[0], a, s[1..], rest);
      assert s == [s[0]] + s[1..];
      [s[0]] + rest
  }

  /** The whole store, newest audit year first. */
  function GetAllHistory(s: Store): (r: Store)
    ensures NewestFirst(r)
    ensures multiset(r) == multiset(s)
  {
    if |s| == 0 then []
    else
      assert s == [s[0]] + s[1..];
      InsertByYear(s[0], GetAllHistory(s[1..]))
  }

  lemma MultisetCancel<T>(m1: multiset<T>, m2: multiset<T>, x: T)
    requires m1 + multiset{x} == m2 + multiset{x}
    ensures m1 == m2
  {
    assert m1 == (m1 + multiset{x}) - multiset{x};
    assert m2 == (m2 + multiset{x}) - multiset{x};
  }

  lemma YearsOfConcat(u: Store, v: Store)
    ensures Years(u + v) == Years(u) + Years(v)
  {
  }

  /** Rearranging a store rearranges its column of years. */
  lemma {:induction false} PermutedYears(a: Store, b: Store)
    requires multiset(a) == multiset(b)
    ensures multiset(Years(a)) == multiset(Years(b))
    decreases |a|
  {
    if |a| == 0 {
      assert |b| == |multiset(b)| == 0;
    } else {
      var x := a[0];
      assert a == [x] + a[1..];
      assert x in multiset(b);
      var j :| 0 <= j < |b| && b[j] == x;
      assert b == b[..j] + [x] + b[j + 1..];
      var b' := b[..j] + b[j + 1..];
      assert multiset(a) == multiset(a[1..]) + multiset{x};
      assert multiset(b) == multiset(b[..j]) + multiset{x} + multiset(b[j + 1..]);
      assert multiset(b') == multiset(b[..j]) + multiset(b[j + 1..]);
      assert multiset(b) == multiset(b') + multiset{x};
      MultisetCancel(multiset(a[1..]), multiset(b'), x);
      PermutedYears(a[1..], b');
      YearsOfConcat([x], a[1..]);
      YearsOfConcat(b[..j], [x]);
      YearsOfConcat(b[..j] + [x], b[j + 1..]);
      YearsOfConcat(b[..j], b[j + 1..]);
    }
  }

  ghost predicate Descending(xs: seq<int>) {
    forall i, j :: 0 <= i < j < |xs| ==> xs[i] >= xs[j]
  }

  /** Descending sequences with the same elements start alike. */
  lemma DescendingHeads(xs: seq<int>, ys: seq<int>)
    requires Descending(xs) && Descending(ys)
    requires multiset(xs) == multiset(ys) && |xs| > 0
    ensures |ys| > 0 && xs[0] == ys[0]
  {
    assert xs[0] in multiset(ys);
    var j :| 0 <= j < |ys| && ys[j] == xs[0];
    assert ys[0] in multiset(xs);
    var i :| 0 <= i < |xs| && xs[i] == ys[0];
  }

  /** Two descending sequences with the same elements are equal. */
  lemma {:induction false} DescendingUnique(xs: seq<int>, ys: seq<int>)
    requires Descending(xs) && Descending(ys)
    requires multiset(xs) == multiset(ys)
    ensures xs == ys
    decreases |xs|
  {
    if |xs| == 0 {
      assert |ys| == |multiset(ys)| == 0;
    } else {
      DescendingHeads(xs, ys);
      assert xs == [xs[0]] + xs[1..];
      assert ys == [ys[0]] + ys[1..];
      assert multiset(xs) == multiset(xs[1..]) + multiset{xs[0]};
      assert multiset(ys) == multiset(ys[1..]) + multiset{xs[0]};
      MultisetCancel(multiset(xs[1..]), multiset(ys[1..]), xs[0]);
      assert Descending(xs[1..]) && Descending(ys[1..]);
      DescendingUnique(xs[1..], ys[1..]);
    }
  }

  /** The history's year column is fully determined by the store: any
      newest-first arrangement of the same records lists the same years in
      the same order; only records sharing a year may be ordered otherwise. */
  lemma {:induction false} HistoryYearsDetermined(s: Store, r: Store)
    requires multiset(r) == multiset(s) && NewestFirst(r)
    ensures Years(GetAllHistory(s)) == Years(r)
  {
    var h := GetAllHistory(s);
    PermutedYears(h, r);
    DescendingUnique(Years(h), Years(r));
  }

  /** The arrangement of the example below that lists 2026, 2024, 2022. */
  lemma ExampleArrangement(s: Store) returns (r: Store)
    requires |s| == 3
    requires s[0].auditYear == 2022 && s[1].auditYear == 2026 && s[2].auditYear == 2024
    ensures multiset(r) == multiset(s) && NewestFirst(r)
    ensures Years(r) == [2026, 2024, 2022]
  {
    r := [s[1], s[2], s[0]];
    assert s == [s[0]] + [s[1]] + [s[2]];
    assert r == [s[1]] + [s[2]] + [s[0]];
    var ys := Years(r);
    assert ys[0] == 2026 && ys[1] == 2024 && ys[2] == 2022;
  }

  /** Records of 2022, 2026 and 2024 come back as 2026, 2024, 2022. */
  lemma HistoryExample(s: Store)
    requires |s| == 3
    requires s[0].auditYear == 2022 && s[1].auditYear == 2026 && s[2].auditYear == 2024
    ensures Years(GetAllHistory(s)) == [2026, 2024, 2022]
  {
    var r := ExampleArrangement(s);
    HistoryYearsDetermined(s, r);
  }
}
