/**
 * `distinct`: removes duplicates from an array, keeping the first occurrence
 * of each value (without a selector) or of each selector key (with one), in
 * input order. A selector that throws aborts the whole call.
 */
module Distinct {
  import opened Wrappers

  /** The selector key of each item, in order. */
  function Keys<T, K>(s: seq<T>, f: T -> K): seq<K>
  {
    seq(|s|, i requires 0 <= i < |s| => f(s[i]))
  }

  /** A key occurs among the keys of `s` exactly when some item of `s` has it. */
  lemma InKeys<T, K>(s: seq<T>, f: T -> K, k: K)
    ensures k in Keys(s, f) <==> exists j :: 0 <= j < |s| && f(s[j]) == k
  {
    if k in Keys(s, f) {
      var j :| 0 <= j < |s| && Keys(s, f)[j] == k;
    }
    if exists j :: 0 <= j < |s| && f(s[j]) == k {
      var j :| 0 <= j < |s| && f(s[j]) == k;
      assert Keys(s, f)[j] == k;
    }
  }

  /**
   * The branch without a selector: an item is appended when it is not
   * already in the result (`result.indexOf(item) === -1`).
   */
  function Dedup<T(==)>(s: seq<T>): (r: seq<T>)
    ensures |r| <= |s|
    ensures forall x :: x in r ==> x in s
    ensures forall x :: x in s ==> x in r
  {
    if s == [] then []
    else
      var kept := Dedup(s[..|s| - 1]);
      assert forall x :: x in s[..|s| - 1] ==> x in s;
      assert forall x :: x in s ==> x in s[..|s| - 1] || x == s[|s| - 1];
      if s[|s| - 1] in kept then kept else kept + [s[|s| - 1]]
  }

  /**
   * The branch with a selector: an item is appended when its key has not
   * been seen, that is, when no item already kept has the same key.
   */
  function DedupBy<T, K(==)>(s: seq<T>, f: T -> K): (r: seq<T>)
    ensures |r| <= |s|
    ensures forall x :: x in r ==> x in s
  {
    if s == [] then []
    else
      var kept := DedupBy(s[..|s| - 1], f);
      assert forall x :: x in kept ==> x in s[..|s| - 1];
      if f(s[|s| - 1]) in Keys(kept, f) then kept else kept + [s[|s| - 1]]
  }

  /** No earlier item of `s` has the key of the item at `i`. */
  ghost predicate IsFirstWithKey<T, K>(s: seq<T>, f: T -> K, i: int)
    requires 0 <= i < |s|
  {
    forall j :: 0 <= j < i ==> f(s[j]) != f(s[i])
  }

  /**
   * The positions of the first occurrences of each key, in increasing order:
   * the reference definition the selector branch is proved against.
   */
  ghost function FirstIndices<T, K>(s: seq<T>, f: T -> K): (idx: seq<int>)
    ensures forall j :: 0 <= j < |idx| ==> 0 <= idx[j] < |s| && IsFirstWithKey(s, f, idx[j])
    ensures forall i :: 0 <= i < |s| && IsFirstWithKey(s, f, i) ==> i in idx
    ensures forall j, k :: 0 <= j < k < |idx| ==> idx[j] < idx[k]
  {
    if s == [] then []
    else
      var n := |s| - 1;
      var init := s[..n];
      var idx := FirstIndices(init, f);
      assert forall i :: 0 <= i < n ==> (IsFirstWithKey(init, f, i) <==> IsFirstWithKey(s, f, i));
      idx + if IsFirstWithKey(s, f, n) then [n] else []
  }

  /** The keys of the kept items are exactly the keys of the input: every input key is represented. */
  lemma {:induction false} DedupByKeys<T, K>(s: seq<T>, f: T -> K, k: K)
    ensures k in Keys(DedupBy(s, f), f) <==> k in Keys(s, f)
    decreases |s|
  {
    if s != [] {
      var n := |s| - 1;
      var init := s[..n];
      DedupByKeys(init, f, k);
      assert Keys(s, f) == Keys(init, f) + [f(s[n])];
      var kept := DedupBy(init, f);
      if f(s[n]) !in Keys(kept, f) {
        assert Keys(kept + [s[n]], f) == Keys(kept, f) + [f(s[n])];
      }
    }
  }

  /** No two items of `s` share a key. */
  ghost predicate DistinctKeys<T, K>(s: seq<T>, f: T -> K)
  {
    forall i, j :: 0 <= i < j < |s| ==> f(s[i]) != f(s[j])
  }

  /** No item of `s` occurs twice. */
  ghost predicate NoDuplicates<T>(s: seq<T>)
  {
    forall i, j :: 0 <= i < j < |s| ==> s[i] != s[j]
  }

  /** `r` is the items of `s` at the positions `idx`, in that order. */
  ghost predicate Picks<T>(r: seq<T>, s: seq<T>, idx: seq<int>)
  {
    |r| == |idx| && forall j :: 0 <= j < |r| ==> 0 <= idx[j] < |s| && r[j] == s[idx[j]]
  }

  /** No two kept items share a key. */
  lemma {:induction false} DedupByKeysDistinct<T, K>(s: seq<T>, f: T -> K)
    ensures DistinctKeys(DedupBy(s, f), f)
    decreases |s|
  {
    if s != [] {
      var n := |s| - 1;
      var kept := DedupBy(s[..n], f);
      DedupByKeysDistinct(s[..n], f);
      if f(s[n]) !in Keys(kept, f) {
        var r := kept + [s[n]];
        forall i, j | 0 <= i < j < |r| ensures f(r[i]) != f(r[j]) {
          assert r[i] == kept[i];
          if j == |kept| {
            assert r[j] == s[n];
            assert Keys(kept, f)[i] == f(r[i]);
          } else {
            assert r[j] == kept[j];
          }
        }
      }
    }
  }

  /**
   * The kept items are the input items at the first occurrence of each key,
   * in input order: the result is the subsequence of `s` picked out by
   * `FirstIndices`.
   */
  lemma {:induction false} DedupByFirstOccurrences<T, K>(s: seq<T>, f: T -> K)
    ensures Picks(DedupBy(s, f), s, FirstIndices(s, f))
    decreases |s|
  {
    if s != [] {
      var n := |s| - 1;
      var init := s[..n];
      DedupByFirstOccurrences(init, f);
      DedupByKeys(init, f, f(s[n]));
      var kept := DedupBy(init, f);
      assert f(s[n]) in Keys(init, f) <==> !IsFirstWithKey(s, f, n) by {
        InKeys(init, f, f(s[n]));
        assert forall j :: 0 <= j < n ==> init[j] == s[j];
      }
    }
  }

  /** A sequence whose keys are already pairwise distinct is left as it is. */
  lemma {:induction false} DedupByOfDistinctKeys<T, K>(s: seq<T>, f: T -> K)
    requires DistinctKeys(s, f)
    ensures DedupBy(s, f) == s
    decreases |s|
  {
    if s != [] {
      var n := |s| - 1;
      var init := s[..n];
      DedupByOfDistinctKeys(init, f);
      assert init + [s[n]] == s;
    }
  }

  /** Deduplicating twice by the same selector is the same as deduplicating once. */
  lemma {:induction false} DedupByIdempotent<T, K>(s: seq<T>, f: T -> K)
    ensures DedupBy(DedupBy(s, f), f) == DedupBy(s, f)
  {
    DedupByKeysDistinct(s, f);
    DedupByOfDistinctKeys(DedupBy(s, f), f);
  }

  /**
   * The promises of `distinct` with a selector: kept keys pairwise distinct,
   * every input key represented by a kept item, each kept item the first
   * input item with its key, in input order, and a second application
   * changes nothing.
   */
  lemma DedupByProperties<T, K>(s: seq<T>, f: T -> K)
    ensures DistinctKeys(DedupBy(s, f), f)
    ensures forall k :: k in Keys(DedupBy(s, f), f) <==> k in Keys(s, f)
    ensures Picks(DedupBy(s, f), s, FirstIndices(s, f))
    ensures DedupBy(DedupBy(s, f), f) == DedupBy(s, f)
  {
    DedupByKeysDistinct(s, f);
    forall k ensures k in Keys(DedupBy(s, f), f) <==> k in Keys(s, f) {
      DedupByKeys(s, f, k);
    }
    DedupByFirstOccurrences(s, f);
    DedupByIdempotent(s, f);
  }

  /** Without a selector, `distinct` deduplicates by the items themselves. */
  lemma {:induction false} DedupIsDedupByIdentity<T>(s: seq<T>)
    ensures Dedup(s) == DedupBy(s, x => x)
    decreases |s|
  {
    if s != [] {
      var kept := Dedup(s[..|s| - 1]);
      DedupIsDedupByIdentity(s[..|s| - 1]);
      assert Keys(kept, x => x) == kept;
    }
  }

  /**
   * The promises of `distinct` without a selector: no duplicates, every input
   * item present and nothing else, first occurrences in input order, never
   * longer than the input, and a second application changes nothing.
   */
  lemma DedupProperties<T>(s: seq<T>)
    ensures NoDuplicates(Dedup(s))
    ensures forall x :: x in Dedup(s) <==> x in s
    ensures Picks(Dedup(s), s, FirstIndices(s, x => x))
    ensures |Dedup(s)| <= |s|
    ensures Dedup(Dedup(s)) == Dedup(s)
  {
    var id := (x: T) => x;
    var r := Dedup(s);
    DedupIsDedupByIdentity(s);
    DedupByKeysDistinct(s, id);
    DedupByFirstOccurrences(s, id);
    assert Keys(r, id) == r;
    assert Keys(s, id) == s;
    forall x ensures x in r <==> x in s {
      DedupByKeys(s, id, x);
    }
    DedupIsDedupByIdentity(r);
    DedupByIdempotent(s, id);
  }

  /**
   * `distinct(array)` without a selector. The result starts empty and each
   * item not yet in it is appended.
   */
  method Distinct<T(==)>(items: seq<T>) returns (result: seq<T>)
    ensures result == Dedup(items)
    ensures NoDuplicates(result)
    ensures forall x :: x in result <==> x in items
    ensures Picks(result, items, FirstIndices(items, x => x))
    ensures |result| <= |items|
    ensures items == [] ==> result == []
  {
    result := [];
    for i := 0 to |items|
      invariant result == Dedup(items[..i])
    {
      assert items[..i + 1][..i] == items[..i];
      if items[i] !in result {
        result := result + [items[i]];
      }
    }
    assert items[..|items|] == items;
    DedupProperties(items);
  }

  /**
   * The message of the first item whose selector call throws, if any: the
   * call on which `distinct` stops.
   */
  function FirstFailure<T, K>(s: seq<T>, selector: T -> Result<K, string>): (r: Option<string>)
    ensures r.Some? ==> exists x :: x in s && selector(x) == Failure(r.value)
  {
    if s == [] then None
    else
      assert forall x :: x in s[..|s| - 1] ==> x in s;
      match FirstFailure(s[..|s| - 1], selector)
      case Some(e) => Some(e)
      case None => if selector(s[|s| - 1]).Failure? then Some(selector(s[|s| - 1]).error) else None
  }

  /**
   * `FirstFailure` finds nothing exactly when the selector succeeds on every
   * item, and otherwise finds the message of the earliest failing item.
   */
  lemma {:induction false} FirstFailureMeaning<T, K>(s: seq<T>, selector: T -> Result<K, string>)
    ensures FirstFailure(s, selector).None? <==> forall i :: 0 <= i < |s| ==> selector(s[i]).Success?
    ensures FirstFailure(s, selector).Some? ==>
      exists i :: 0 <= i < |s| && selector(s[i]) == Failure(FirstFailure(s, selector).value)
        && forall j :: 0 <= j < i ==> selector(s[j]).Success?
    decreases |s|
  {
    if s != [] {
      var n := |s| - 1;
      FirstFailureMeaning(s[..n], selector);
      if FirstFailure(s[..n], selector).Some? {
        var i :| 0 <= i < n && selector(s[..n][i]) == Failure(FirstFailure(s[..n], selector).value)
          && forall j :: 0 <= j < i ==> selector(s[..n][j]).Success?;
        assert s[..n][i] == s[i];
      }
    }
  }

  /** Once a prefix of the input has a failure, the whole input has the same first failure. */
  lemma {:induction false} FirstFailureOfPrefix<T, K>(s: seq<T>, n: nat, selector: T -> Result<K, string>)
    requires n <= |s| && FirstFailure(s[..n], selector).Some?
    ensures FirstFailure(s, selector) == FirstFailure(s[..n], selector)
    decreases |s| - n
  {
    if n < |s| {
      assert s[..n + 1][..n] == s[..n];
      FirstFailureOfPrefix(s, n + 1, selector);
    } else {
      assert s[..n] == s;
    }
  }

  /**
   * Calling `distinct` with the same selector on a successful result cannot
   * throw, and returns that result unchanged.
   */
  lemma DistinctByIdempotent<T, K>(s: seq<T>, selector: T -> Result<K, string>)
    requires FirstFailure(s, selector).None?
    ensures FirstFailure(DedupBy(s, selector), selector).None?
    ensures DedupBy(DedupBy(s, selector), selector) == DedupBy(s, selector)
  {
    var r := DedupBy(s, selector);
    FirstFailureMeaning(s, selector);
    FirstFailureMeaning(r, selector);
    assert forall i :: 0 <= i < |r| ==> r[i] in s;
    DedupByIdempotent(s, selector);
  }

  /** Without a selector: `[1, 2, 2, 3, 1]` becomes `[1, 2, 3]`. */
  lemma DedupExample()
    ensures Dedup([1, 2, 2, 3, 1]) == [1, 2, 3]
  {
    assert [1, 2][..1] == [1];
    assert [1, 2, 2][..2] == [1, 2];
    assert [1, 2, 2, 3][..3] == [1, 2, 2];
    assert [1, 2, 2, 3, 1][..4] == [1, 2, 2, 3];
    assert Dedup([1]) == [1];
    assert Dedup([1, 2]) == [1, 2];
    assert Dedup([1, 2, 2]) == [1, 2];
    assert Dedup([1, 2, 2, 3]) == [1, 2, 3];
  }

  /** With a key selector, the later item with key 1 is dropped and the order is kept. */
  lemma DedupByExample()
    ensures DedupBy([(1, "a"), (2, "b"), (1, "c")], (p: (int, string)) => p.0) == [(1, "a"), (2, "b")]
  {
    var s := [(1, "a"), (2, "b"), (1, "c")];
    var f := (p: (int, string)) => p.0;
    assert s[..1] == [(1, "a")];
    assert s[..2] == [(1, "a"), (2, "b")];
    assert DedupBy(s[..1], f) == [(1, "a")];
    assert Keys([(1, "a")], f) == [1];
    assert DedupBy(s[..2], f) == [(1, "a"), (2, "b")];
    assert Keys([(1, "a"), (2, "b")], f) == [1, 2];
  }

  /**
   * `distinct(array, selector)`. A selector that throws is one that returns
   * `Failure` with the error's message; the first such call aborts with that
   * message and no partial result. Otherwise the keys, compared as returned,
   * decide which items are kept; `seen` holds the keys of the items kept so
   * far (the `Map` of the source, whose values are never read).
   */
  method DistinctBy<T, K(==)>(items: seq<T>, selector: T -> Result<K, string>)
    returns (r: Result<seq<T>, string>)
    ensures r.Failure? <==> FirstFailure(items, selector).Some?
    ensures r.Failure? ==> r.error == FirstFailure(items, selector).value
    ensures r.Success? ==> r.value == DedupBy(items, selector)
    ensures r.Success? ==> DistinctKeys(r.value, selector) && Picks(r.value, items, FirstIndices(items, selector))
  {
    var seen: set<K> := {};
    var result: seq<T> := [];
    for i := 0 to |items|
      invariant FirstFailure(items[..i], selector).None?
      invariant result == DedupBy(items[..i], selector)
      invariant forall j :: 0 <= j < |result| ==> selector(result[j]).Success? && selector(result[j]).value in seen
      invariant forall k :: k in seen ==> Success(k) in Keys(result, selector)
    {
      assert items[..i + 1][..i] == items[..i];
      var key := selector(items[i]);
      if key.Failure? {
        FirstFailureOfPrefix(items, i + 1, selector);
        return Failure(key.error);
      }
      assert DedupBy(items[..i + 1], selector)
        == if key in Keys(result, selector) then result else result + [items[i]];
      assert key.value in seen <==> key in Keys(result, selector);
      if key.value !in seen {
        assert Keys(result + [items[i]], selector) == Keys(result, selector) + [key];
        result := result + [items[i]];
        seen := seen + {key.value};
      }
    }
    assert items[..|items|] == items;
    DedupByProperties(items, selector);
    r := Success(result);
  }
}
