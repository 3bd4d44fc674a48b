/** The home page's sort stage (`sortedWallpapers`): the filtered list is copied into a fresh
    array and sorted there, by a descending key with a stable sort for "Trending",
    "Most Downloads" and "Newest", by a random comparator for "Random", and not at all for any
    other option. */
module GallerySort {
  import opened Seqs
  import opened Wallpapers

  function Views(w: Wallpaper): int { w.views }
  function Downloads(w: Wallpaper): int { w.downloads }
  function DateAdded(w: Wallpaper): int { w.dateAdded }

  /** Keys never increase from left to right. */
  ghost predicate Descending(s: seq<Wallpaper>, key: Wallpaper -> int) {
    forall i, j :: 0 <= i < j < |s| ==> key(s[i]) >= key(s[j])
  }

  /** The records whose key is `k`, in order. */
  function WithKey(s: seq<Wallpaper>, key: Wallpaper -> int, k: int): seq<Wallpaper> {
    Filter(s, KeyIs(key, k))
  }

  /** The test "has key `k`". */
  function KeyIs(key: Wallpaper -> int, k: int): Wallpaper -> bool {
    w => key(w) == k
  }

  /** Records with equal keys appear in `r` in the same relative order as in `s`. */
  ghost predicate StableFor(r: seq<Wallpaper>, s: seq<Wallpaper>, key: Wallpaper -> int) {
    forall k :: WithKey(r, key, k) == WithKey(s, key, k)
  }

  /** Puts `x` after every record whose key is at least `x`'s. */
  function InsertDesc(t: seq<Wallpaper>, x: Wallpaper, key: Wallpaper -> int): (r: seq<Wallpaper>)
    ensures |r| == |t| + 1
  {
    if t == [] || key(t[0]) < key(x) then [x] + t else [t[0]] + InsertDesc(t[1..], x, key)
  }

  lemma {:induction false} InsertDescPermutation(t: seq<Wallpaper>, x: Wallpaper, key: Wallpaper -> int)
    ensures multiset(InsertDesc(t, x, key)) == multiset(t) + multiset{x}
    decreases |t|
  {
    if t != [] && key(t[0]) >= key(x) {
      InsertDescPermutation(t[1..], x, key);
      assert t == [t[0]] + t[1..];
    }
  }

  /** The stable descending sort of `s` by `key`: each record in turn is inserted into the
      sorted prefix before it, after all records with a key at least as large. */
  function SortDesc(s: seq<Wallpaper>, key: Wallpaper -> int): (r: seq<Wallpaper>)
    ensures |r| == |s|
  {
    if s == [] then [] else InsertDesc(SortDesc(s[..|s| - 1], key), s[|s| - 1], key)
  }

  lemma {:induction false} InsertDescSorted(t: seq<Wallpaper>, x: Wallpaper, key: Wallpaper -> int)
    requires Descending(t, key)
    ensures Descending(InsertDesc(t, x, key), key)
    decreases |t|
  {
    if t != [] && key(t[0]) >= key(x) {
      var u := t[1..];
      InsertDescSorted(u, x, key);
      var r := InsertDesc(u, x, key);
      assert forall m :: 0 <= m < |u| ==> key(u[m]) <= key(t[0]) by {
        forall m | 0 <= m < |u| ensures key(u[m]) <= key(t[0]) {
          assert u[m] == t[m + 1];
        }
      }
      InsertDescBound(u, x, key, key(t[0]));
      assert InsertDesc(t, x, key) == [t[0]] + r;
    }
  }

  /** Inserting keeps every key under a bound that `x` and all of `t` respect. */
  lemma {:induction false} InsertDescBound(t: seq<Wallpaper>, x: Wallpaper, key: Wallpaper -> int, b: int)
    requires key(x) <= b
    requires forall m :: 0 <= m < |t| ==> key(t[m]) <= b
    ensures forall m :: 0 <= m < |t| + 1 ==> key(InsertDesc(t, x, key)[m]) <= b
    decreases |t|
  {
    if t != [] && key(t[0]) >= key(x) {
      var u := t[1..];
      assert forall m :: 0 <= m < |u| ==> key(u[m]) <= b by {
        forall m | 0 <= m < |u| ensures key(u[m]) <= b {
          assert u[m] == t[m + 1];
        }
      }
      InsertDescBound(u, x, key, b);
      assert InsertDesc(t, x, key) == [t[0]] + InsertDesc(u, x, key);
    }
  }

  /** Inserting `x` adds it to the end of its own key group and leaves the other groups alone. */
  lemma {:induction false} InsertDescStable(t: seq<Wallpaper>, x: Wallpaper, key: Wallpaper -> int, k: int)
    requires Descending(t, key)
    ensures WithKey(InsertDesc(t, x, key), key, k) == WithKey(t, key, k) + (if key(x) == k then [x] else [])
    decreases |t|
  {
    var p := KeyIs(key, k);
    if t == [] || key(t[0]) < key(x) {
      InsertFrontStable(t, x, key, k);
    } else {
      InsertDescStable(t[1..], x, key, k);
      FilterCons(t[0], InsertDesc(t[1..], x, key), p);
      assert t == [t[0]] + t[1..];
      FilterCons(t[0], t[1..], p);
    }
  }

  /** When `x` goes in front, nothing in `t` shares its key. */
  lemma InsertFrontStable(t: seq<Wallpaper>, x: Wallpaper, key: Wallpaper -> int, k: int)
    requires Descending(t, key)
    requires t == [] || key(t[0]) < key(x)
    ensures WithKey([x] + t, key, k) == WithKey(t, key, k) + (if key(x) == k then [x] else [])
  {
    var p := KeyIs(key, k);
    FilterCons(x, t, p);
    if key(x) == k {
      forall y | y in t ensures !p(y) {
        var i :| 0 <= i < |t| && t[i] == y;
        assert key(t[0]) >= key(t[i]);
      }
      FilterNone(t, p);
    }
  }

  /** The sort yields non-increasing keys. */
  lemma {:induction false} SortDescSorted(s: seq<Wallpaper>, key: Wallpaper -> int)
    ensures Descending(SortDesc(s, key), key)
    decreases |s|
  {
    if s != [] {
      SortDescSorted(s[..|s| - 1], key);
      InsertDescSorted(SortDesc(s[..|s| - 1], key), s[|s| - 1], key);
    }
  }

  /** The sort is a permutation of its input. */
  lemma {:induction false} SortDescPermutation(s: seq<Wallpaper>, key: Wallpaper -> int)
    ensures multiset(SortDesc(s, key)) == multiset(s)
    decreases |s|
  {
    if s != [] {
      SortDescPermutation(s[..|s| - 1], key);
      InsertDescPermutation(SortDesc(s[..|s| - 1], key), s[|s| - 1], key);
      assert s == s[..|s| - 1] + [s[|s| - 1]];
    }
  }

  /** The sort is stable: records with equal keys keep their input order. */
  lemma {:induction false} SortDescStable(s: seq<Wallpaper>, key: Wallpaper -> int)
    ensures StableFor(SortDesc(s, key), s, key)
    decreases |s|
  {
    if s != [] {
      var init, last := s[..|s| - 1], s[|s| - 1];
      SortDescStable(init, key);
      SortDescSorted(init, key);
      forall k ensures WithKey(SortDesc(s, key), key, k) == WithKey(s, key, k) {
        InsertDescStable(SortDesc(init, key), last, key, k);
        assert s == init + [last];
        FilterAppend(init, [last], KeyIs(key, k));
      }
    }
  }

  /** Where `InsertDesc` puts `x`: at the first position whose key is smaller than `x`'s. */
  lemma {:induction false} InsertDescAt(t: seq<Wallpaper>, x: Wallpaper, key: Wallpaper -> int, j: nat)
    requires j <= |t|
    requires forall k :: 0 <= k < j ==> key(t[k]) >= key(x)
    requires j == |t| || key(t[j]) < key(x)
    ensures InsertDesc(t, x, key) == t[..j] + [x] + t[j..]
    decreases j
  {
    if j == 0 {
      assert t[..0] + [x] + t[0..] == [x] + t;
    } else {
      var u := t[1..];
      assert forall k :: 0 <= k < j - 1 ==> key(u[k]) >= key(x) by {
        forall k | 0 <= k < j - 1 ensures key(u[k]) >= key(x) {
          assert u[k] == t[k + 1];
        }
      }
      assert j - 1 == |u| || u[j - 1] == t[j];
      InsertDescAt(u, x, key, j - 1);
      assert InsertDesc(t, x, key) == [t[0]] + InsertDesc(u, x, key);
      assert t[..j] == [t[0]] + u[..j - 1];
      assert t[j..] == u[j - 1..];
      ConsInsert(t[0], u[..j - 1], x, u[j - 1..]);
    }
  }

  lemma ConsInsert(h: Wallpaper, a: seq<Wallpaper>, x: Wallpaper, b: seq<Wallpaper>)
    ensures [h] + (a + [x] + b) == ([h] + a) + [x] + b
  {
  }

  /** One outer step of the insertion sort: `x`, the next input element, lands at position `j`
      of the sorted prefix when every key before `j` is at least `x`'s and every key from `j`
      on is smaller. */
  lemma InsertStep(input: seq<Wallpaper>, key: Wallpaper -> int, i: nat, j: nat)
    requires j <= i < |input|
    requires j == 0 || key(SortDesc(input[..i], key)[j - 1]) >= key(input[i])
    requires forall k :: j <= k < i ==> key(SortDesc(input[..i], key)[k]) < key(input[i])
    ensures SortDesc(input[..i + 1], key)
         == SortDesc(input[..i], key)[..j] + [input[i]] + SortDesc(input[..i], key)[j..]
  {
    var sorted := SortDesc(input[..i], key);
    SortDescSorted(input[..i], key);
    assert input[..i + 1][..i] == input[..i];
    InsertDescAt(sorted, input[i], key, j);
  }

  /** Stable in-place insertion sort of `a`, descending by `key`. */
  method SortDescInPlace(a: array<Wallpaper>, key: Wallpaper -> int)
    modifies a
    ensures a[..] == SortDesc(old(a[..]), key)
  {
    ghost var input := a[..];
    var i := 0;
    while i < a.Length
      invariant 0 <= i <= a.Length
      invariant a[..i] == SortDesc(input[..i], key)
      invariant a[i..] == input[i..]
    {
      var j := MoveIntoPlace(a, i, key);
      InsertStep(input, key, i, j);
      assert a[i + 1..] == input[i + 1..];
      i := i + 1;
    }
    assert input[..a.Length] == input;
  }

  /** Moves `a[i]` towards the front past every element with a strictly smaller key, shifting
      those one place back, and returns where it stopped. */
  method MoveIntoPlace(a: array<Wallpaper>, i: nat, key: Wallpaper -> int) returns (j: nat)
    requires i < a.Length
    modifies a
    ensures j <= i
    ensures j == 0 || key(old(a[j - 1])) >= key(old(a[i]))
    ensures forall k :: j <= k < i ==> key(old(a[k])) < key(old(a[i]))
    ensures a[..i + 1] == old(a[..i])[..j] + [old(a[i])] + old(a[..i])[j..]
    ensures a[i + 1..] == old(a[i + 1..])
  {
    ghost var orig := a[..];
    var x := a[i];
    j := ShiftBack(a, i, x, key);
    a[j] := x;
    ShiftedInsert(a[..i + 1], orig[..i], x, j);
    assert a[i + 1..] == orig[i + 1..];
  }

  /** Shifts the elements before `i` whose key is smaller than `x`'s one place back, starting
      from `i - 1`, and returns the index of the gap left behind. */
  method ShiftBack(a: array<Wallpaper>, i: nat, x: Wallpaper, key: Wallpaper -> int) returns (j: nat)
    requires i < a.Length
    modifies a
    ensures j <= i
    ensures j == 0 || key(old(a[j - 1])) >= key(x)
    ensures forall k :: j <= k < i ==> key(old(a[k])) < key(x)
    ensures forall k :: 0 <= k < j ==> a[k] == old(a[k])
    ensures forall k :: j < k <= i ==> a[k] == old(a[k - 1])
    ensures forall k :: i < k < a.Length ==> a[k] == old(a[k])
  {
    j := i;
    while j > 0 && key(a[j - 1]) < key(x)
      invariant 0 <= j <= i
      invariant forall k :: 0 <= k < j ==> a[k] == old(a[k])
      invariant forall k :: j < k <= i ==> a[k] == old(a[k - 1])
      invariant forall k :: i < k < a.Length ==> a[k] == old(a[k])
      invariant forall k :: j <= k < i ==> key(old(a[k])) < key(x)
    {
      a[j] := a[j - 1];
      j := j - 1;
    }
  }

  /** A sequence that agrees with `before` up to `j`, holds `x` at `j` and `before` shifted by
      one after it, is `before` with `x` inserted at `j`. */
  lemma ShiftedInsert(after: seq<Wallpaper>, before: seq<Wallpaper>, x: Wallpaper, j: nat)
    requires j <= |before| && |after| == |before| + 1
    requires forall k :: 0 <= k < j ==> after[k] == before[k]
    requires after[j] == x
    requires forall k :: j < k < |after| ==> after[k] == before[k - 1]
    ensures after == before[..j] + [x] + before[j..]
  {
  }

  /** Insertion sort driven by a random comparator: the `n`-th comparison says whether to
      swap according to `random(n)` (the sign of `Math.random() - 0.5`). */
  method ShuffleInPlace(a: array<Wallpaper>, random: nat -> bool)
    modifies a
    ensures multiset(a[..]) == multiset(old(a[..]))
  {
    var calls: nat := 0;
    var i := 1;
    while i < a.Length
      invariant multiset(a[..]) == multiset(old(a[..]))
    {
      var j := i;
      while j > 0 && random(calls)
        invariant 0 <= j <= i < a.Length
        invariant multiset(a[..]) == multiset(old(a[..]))
      {
        a[j - 1], a[j] := a[j], a[j - 1];
        j := j - 1;
        calls := calls + 1;
      }
      calls := calls + 1;
      i := i + 1;
    }
  }

  /** `sortedWallpapers`: sorts a copy of the filtered list; the filtered list itself is a
      value and stays as it was. */
  method SortedWallpapers(filtered: seq<Wallpaper>, sortOption: string, random: nat -> bool)
    returns (r: seq<Wallpaper>)
    ensures multiset(r) == multiset(filtered)
    ensures sortOption == "Trending" ==> Descending(r, Views) && StableFor(r, filtered, Views)
    ensures sortOption == "Most Downloads" ==> Descending(r, Downloads) && StableFor(r, filtered, Downloads)
    ensures sortOption == "Newest" ==> Descending(r, DateAdded) && StableFor(r, filtered, DateAdded)
    ensures sortOption !in {"Trending", "Most Downloads", "Newest", "Random"} ==> r == filtered
  {
    var sorted := new Wallpaper[|filtered|](i requires 0 <= i < |filtered| => filtered[i]);
    assert sorted[..] == filtered;
    var key: Wallpaper -> int := Views;
    if sortOption == "Trending" || sortOption == "Most Downloads" || sortOption == "Newest" {
      key := if sortOption == "Trending" then Views
             else if sortOption == "Most Downloads" then Downloads
             else DateAdded;
      SortDescInPlace(sorted, key);
      SortDescSorted(filtered, key);
      SortDescPermutation(filtered, key);
      SortDescStable(filtered, key);
    } else if sortOption == "Random" {
      ShuffleInPlace(sorted, random);
    }
    r := sorted[..];
  }
}
