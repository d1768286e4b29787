/** The order in which an `Index` value lists its entries (builder/src/builder.rs): newest first
    by creation time, an unknown time counting as 0, entries of equal time in directory order —
    the stable sort `sorted_by` performs. */
module IndexOrder {
  import opened Wrappers
  import opened FsTrees

  /** `created.unwrap_or(0)`. */
  function Key(t: ParsedFsTree): nat
  {
    match t.created
    case Some(c) => c
    case None => 0
  }

  predicate NewestFirst(ts: seq<ParsedFsTree>)
  {
    forall i, j :: 0 <= i < j < |ts| ==> Key(ts[i]) >= Key(ts[j])
  }

  /** `x` placed before the first entry that is not newer than it. */
  function InsertByAge(x: ParsedFsTree, ts: seq<ParsedFsTree>): seq<ParsedFsTree>
    decreases |ts|
  {
    if ts == [] || Key(ts[0]) <= Key(x) then [x] + ts
    else [ts[0]] + InsertByAge(x, ts[1..])
  }

  /** The children as the `Index` loop visits them. */
  function SortNewestFirst(ts: seq<ParsedFsTree>): seq<ParsedFsTree>
    decreases |ts|
  {
    if ts == [] then [] else InsertByAge(ts[0], SortNewestFirst(ts[1..]))
  }

  /** The entries of one creation time, in order. */
  function WithKey(ts: seq<ParsedFsTree>, k: nat): (r: seq<ParsedFsTree>)
    ensures forall t :: t in r ==> t in ts
    decreases |ts|
  {
    if ts == [] then []
    else (if Key(ts[0]) == k then [ts[0]] else []) + WithKey(ts[1..], k)
  }

  lemma {:induction false} InsertByAgeElements(x: ParsedFsTree, ts: seq<ParsedFsTree>)
    ensures multiset(InsertByAge(x, ts)) == multiset{x} + multiset(ts)
    ensures forall t :: t in InsertByAge(x, ts) <==> t == x || t in ts
    decreases |ts|
  {
    if ts != [] && Key(ts[0]) > Key(x) {
      InsertByAgeElements(x, ts[1..]);
      assert ts == [ts[0]] + ts[1..];
    }
  }

  lemma NewestFirstTail(ts: seq<ParsedFsTree>)
    requires ts != [] && NewestFirst(ts)
    ensures NewestFirst(ts[1..])
    ensures forall m :: 0 <= m < |ts[1..]| ==> Key(ts[1..][m]) <= Key(ts[0])
  {
    var rest := ts[1..];
    forall i, j | 0 <= i < j < |rest| ensures Key(rest[i]) >= Key(rest[j]) {
      assert rest[i] == ts[i + 1] && rest[j] == ts[j + 1];
    }
    forall m | 0 <= m < |rest| ensures Key(rest[m]) <= Key(ts[0]) {
      assert rest[m] == ts[m + 1];
    }
  }

  /** Inserting keeps every entry at most as new as a bound that `x` and `ts` keep. */
  lemma {:induction false} InsertByAgeBound(x: ParsedFsTree, ts: seq<ParsedFsTree>, b: nat)
    requires Key(x) <= b && forall m :: 0 <= m < |ts| ==> Key(ts[m]) <= b
    ensures forall m :: 0 <= m < |InsertByAge(x, ts)| ==> Key(InsertByAge(x, ts)[m]) <= b
    decreases |ts|
  {
    var r := InsertByAge(x, ts);
    if ts == [] || Key(ts[0]) <= Key(x) {
      forall m | 0 < m < |r| ensures Key(r[m]) <= b {
        assert r[m] == ts[m - 1];
      }
    } else {
      var rest := ts[1..];
      forall m | 0 <= m < |rest| ensures Key(rest[m]) <= b {
        assert rest[m] == ts[m + 1];
      }
      InsertByAgeBound(x, rest, b);
      forall m | 0 < m < |r| ensures Key(r[m]) <= b {
        assert r[m] == InsertByAge(x, rest)[m - 1];
      }
    }
  }

  lemma {:induction false} InsertByAgeSorted(x: ParsedFsTree, ts: seq<ParsedFsTree>)
    requires NewestFirst(ts)
    ensures NewestFirst(InsertByAge(x, ts))
    decreases |ts|
  {
    var r := InsertByAge(x, ts);
    if ts == [] || Key(ts[0]) <= Key(x) {
      forall i, j | 0 <= i < j < |r| ensures Key(r[i]) >= Key(r[j]) {
        assert r[j] == ts[j - 1];
        if i > 0 { assert r[i] == ts[i - 1]; }
      }
    } else {
      var rest := ts[1..];
      NewestFirstTail(ts);
      InsertByAgeSorted(x, rest);
      InsertByAgeBound(x, rest, Key(ts[0]));
      var tail := InsertByAge(x, rest);
      forall i, j | 0 <= i < j < |r| ensures Key(r[i]) >= Key(r[j]) {
        assert r[j] == tail[j - 1];
        if i > 0 { assert r[i] == tail[i - 1]; }
      }
    }
  }

  lemma WithKeyCons(a: ParsedFsTree, ts: seq<ParsedFsTree>, k: nat)
    ensures WithKey([a] + ts, k) == (if Key(a) == k then [a] else []) + WithKey(ts, k)
  {
    assert ([a] + ts)[1..] == ts;
  }

  lemma {:induction false} InsertByAgeStable(x: ParsedFsTree, ts: seq<ParsedFsTree>, k: nat)
    requires NewestFirst(ts)
    ensures WithKey(InsertByAge(x, ts), k) == (if Key(x) == k then [x] else []) + WithKey(ts, k)
    decreases |ts|
  {
    if ts == [] || Key(ts[0]) <= Key(x) {
      WithKeyCons(x, ts, k);
    } else {
      var rest := ts[1..];
      NewestFirstTail(ts);
      InsertByAgeStable(x, rest, k);
      WithKeyCons(ts[0], InsertByAge(x, rest), k);
      WithKeyCons(ts[0], rest, k);
      assert [ts[0]] + rest == ts;
      var mx: seq<ParsedFsTree> := if Key(x) == k then [x] else [];
      var m0: seq<ParsedFsTree> := if Key(ts[0]) == k then [ts[0]] else [];
      assert m0 == [] || mx == [];
      assert m0 + (mx + WithKey(rest, k)) == mx + (m0 + WithKey(rest, k));
    }
  }

  /** Visiting order: newest first, every child exactly once, and entries of the same creation
      time in their directory order. */
  lemma {:induction false} SortNewestFirstMeaning(ts: seq<ParsedFsTree>)
    ensures NewestFirst(SortNewestFirst(ts))
    ensures multiset(SortNewestFirst(ts)) == multiset(ts)
    ensures forall k :: WithKey(SortNewestFirst(ts), k) == WithKey(ts, k)
    decreases |ts|
  {
    if ts != [] {
      SortNewestFirstMeaning(ts[1..]);
      InsertByAgeSorted(ts[0], SortNewestFirst(ts[1..]));
      InsertByAgeElements(ts[0], SortNewestFirst(ts[1..]));
      forall k ensures WithKey(SortNewestFirst(ts), k) == WithKey(ts, k) {
        InsertByAgeStable(ts[0], SortNewestFirst(ts[1..]), k);
      }
      assert ts == [ts[0]] + ts[1..];
    }
  }

  /** Three posts created at 100, 300 and 200 are listed 300, 200, 100. */
  lemma NewestFirstSample(a: ParsedFsTree, b: ParsedFsTree, c: ParsedFsTree)
    requires a.created == Some(100) && b.created == Some(300) && c.created == Some(200)
    ensures SortNewestFirst([a, b, c]) == [b, c, a]
  {
    assert [a, b, c][1..] == [b, c] && [b, c][1..] == [c] && [c][1..] == [];
    assert SortNewestFirst([c]) == [c];
    assert SortNewestFirst([b, c]) == [b, c];
    assert InsertByAge(a, [b, c]) == [b] + InsertByAge(a, [c]);
  }
}
