/** The legend's category list (app.js lines 113-114): the leaves' categories,
    kept in order, with every repeat of an earlier category dropped by
    `filter((category, index, self) => self.indexOf(category) === index)`. */
module Categories {

  /** `Array.prototype.indexOf` under strict equality: the first index holding `x`,
      or -1 when `x` does not occur. */
  function IndexOf<T(==)>(s: seq<T>, x: T): (r: int)
    ensures -1 <= r < |s|
    ensures r == -1 <==> x !in s
    ensures 0 <= r ==> s[r] == x && x !in s[..r]
  {
    if |s| == 0 then -1
    else if s[0] == x then 0
    else
      var k := IndexOf(s[1..], x);
      if k == -1 then -1
      else
        assert s[..k + 1] == [s[0]] + s[1..][..k];
        k + 1
  }

  /** The filter applied to the first `n` elements of `self`: element `i` is kept
      exactly when `self.indexOf(self[i]) === i`. The callback's third argument is
      the whole array, which is why `self` is passed unshortened. */
  function KeepFirst<T(==)>(self: seq<T>, n: nat): seq<T>
    requires n <= |self|
  {
    if n == 0 then []
    else KeepFirst(self, n - 1) + (if IndexOf(self, self[n - 1]) == n - 1 then [self[n - 1]] else [])
  }

  /** The de-duplicated category list. */
  function Dedupe<T(==)>(s: seq<T>): seq<T> {
    KeepFirst(s, |s|)
  }

  /** No element occurs twice. */
  predicate Distinct<T(==)>(s: seq<T>) {
    forall i, j :: 0 <= i < j < |s| ==> s[i] != s[j]
  }

  /** `a` is `s` with some elements removed and the rest left in order. */
  predicate IsSubsequence<T(==)>(a: seq<T>, s: seq<T>)
    decreases |s|
  {
    if a == [] then true
    else if s == [] then false
    else if a[|a| - 1] == s[|s| - 1] then IsSubsequence(a[..|a| - 1], s[..|s| - 1])
    else IsSubsequence(a, s[..|s| - 1])
  }

  /** Element `i` passes the filter exactly when it is the first occurrence of its value. */
  lemma FirstIndexIff<T>(s: seq<T>, i: nat)
    requires i < |s|
    ensures IndexOf(s, s[i]) == i <==> s[i] !in s[..i]
  {
  }

  /** The filter's decision on element `i < n` does not look past index `i`, so it
      is the same on any prefix of `self` that still holds element `i`. */
  lemma {:induction false} KeepFirstPrefix<T>(self: seq<T>, m: nat, n: nat)
    requires n <= m <= |self|
    ensures KeepFirst(self, n) == KeepFirst(self[..m], n)
  {
    if n > 0 {
      var t := self[..m];
      var x := self[n - 1];
      assert t[n - 1] == x && t[..n - 1] == self[..n - 1];
      FirstIndexIff(self, n - 1);
      FirstIndexIff(t, n - 1);
      assert (IndexOf(self, x) == n - 1) == (IndexOf(t, x) == n - 1);
      KeepFirstPrefix(self, m, n - 1);
    }
  }

  /** Appending one element appends it to the result, unless it already occurred. */
  lemma DedupeSnoc<T>(s: seq<T>, x: T)
    ensures Dedupe(s + [x]) == Dedupe(s) + (if x in s then [] else [x])
  {
    var t := s + [x];
    assert t[|s|] == x && t[..|s|] == s;
    FirstIndexIff(t, |s|);
    var kept := if x in s then [] else [x];
    assert kept == (if IndexOf(t, t[|s|]) == |s| then [t[|s|]] else []);
    assert Dedupe(t) == KeepFirst(t, |s|) + kept;
    KeepFirstPrefix(t, |s|, |s|);
  }

  /** The de-duplicated list holds exactly the categories of the input. */
  lemma {:induction false} DedupeSameElements<T>(s: seq<T>)
    ensures forall x :: x in Dedupe(s) <==> x in s
  {
    if s != [] {
      var init, last := s[..|s| - 1], s[|s| - 1];
      assert s == init + [last];
      DedupeSameElements(init);
      DedupeSnoc(init, last);
    }
  }

  /** No category appears twice in the legend. */
  lemma {:induction false} DedupeDistinct<T>(s: seq<T>)
    ensures Distinct(Dedupe(s))
  {
    if s != [] {
      var init, last := s[..|s| - 1], s[|s| - 1];
      assert s == init + [last];
      DedupeDistinct(init);
      DedupeSameElements(init);
      DedupeSnoc(init, last);
    }
  }

  /** The filter never lengthens the list. */
  lemma {:induction false} DedupeLength<T>(s: seq<T>)
    ensures |Dedupe(s)| <= |s|
  {
    if s != [] {
      var init, last := s[..|s| - 1], s[|s| - 1];
      assert s == init + [last];
      DedupeLength(init);
      DedupeSnoc(init, last);
    }
  }

  /** Looking a value up in a longer list finds the same first index, if it occurred already. */
  lemma IndexOfSnoc<T>(s: seq<T>, x: T, y: T)
    ensures y in s ==> IndexOf(s + [x], y) == IndexOf(s, y)
    ensures y !in s && y == x ==> IndexOf(s + [x], y) == |s|
  {
    var t := s + [x];
    if y in s {
      var k := IndexOf(s, y);
      assert t[k] == y && t[..k] == s[..k];
      FirstIndexIff(t, k);
    } else if y == x {
      assert t[..|s|] == s;
      FirstIndexIff(t, |s|);
    }
  }

  /** The result lists the categories in the order of their first occurrence in the input. */
  lemma {:induction false} DedupeFirstOccurrenceOrder<T>(s: seq<T>)
    ensures forall i, j :: 0 <= i < j < |Dedupe(s)| ==> IndexOf(s, Dedupe(s)[i]) < IndexOf(s, Dedupe(s)[j])
  {
    if s != [] {
      var init, last := s[..|s| - 1], s[|s| - 1];
      assert s == init + [last];
      DedupeFirstOccurrenceOrder(init);
      DedupeSameElements(init);
      DedupeSnoc(init, last);
      var r, r0 := Dedupe(s), Dedupe(init);
      forall i, j | 0 <= i < j < |r| ensures IndexOf(s, r[i]) < IndexOf(s, r[j]) {
        assert r[i] == r0[i] && r0[i] in r0;
        IndexOfSnoc(init, last, r[i]);
        IndexOfSnoc(init, last, r[j]);
        if j < |r0| {
          assert r[j] == r0[j] && r[j] in init;
        } else {
          assert r[j] == last && last !in init;
        }
      }
    }
  }

  /** The result is obtained from the input by dropping elements, never by reordering. */
  lemma {:induction false} DedupeIsSubsequence<T>(s: seq<T>)
    ensures IsSubsequence(Dedupe(s), s)
  {
    if s != [] {
      var init, last := s[..|s| - 1], s[|s| - 1];
      assert s == init + [last];
      DedupeSnoc(init, last);
      DedupeIsSubsequence(init);
      var r := Dedupe(s);
      if last in init {
        assert r == Dedupe(init);
        SubsequenceOfLonger(r, init, last);
      } else {
        assert r[|r| - 1] == last && r[..|r| - 1] == Dedupe(init);
      }
    }
  }

  /** A subsequence of `s` is also one of `s` with an element appended. */
  lemma {:induction false} SubsequenceOfLonger<T>(a: seq<T>, s: seq<T>, x: T)
    requires IsSubsequence(a, s)
    ensures IsSubsequence(a, s + [x])
    decreases |s|, 1
  {
    var t := s + [x];
    assert t[..|t| - 1] == s;
    if a != [] && a[|a| - 1] == x {
      // Matching `x` first: the rest of `a` must then be a subsequence of `s`.
      SubsequenceDropLast(a, s);
    }
  }

  /** Dropping the last element of a subsequence keeps it a subsequence. */
  lemma {:induction false} SubsequenceDropLast<T>(a: seq<T>, s: seq<T>)
    requires a != [] && IsSubsequence(a, s)
    ensures IsSubsequence(a[..|a| - 1], s)
    decreases |s|, 0
  {
    var init := s[..|s| - 1];
    if a[|a| - 1] == s[|s| - 1] {
      if a[..|a| - 1] != [] {
        SubsequenceOfLonger(a[..|a| - 1], init, s[|s| - 1]);
        assert init + [s[|s| - 1]] == s;
      }
    } else {
      SubsequenceDropLast(a, init);
      if a[..|a| - 1] != [] {
        SubsequenceOfLonger(a[..|a| - 1], init, s[|s| - 1]);
        assert init + [s[|s| - 1]] == s;
      }
    }
  }

  /** A list without repeats passes the filter unchanged. */
  lemma {:induction false} DedupeOfDistinct<T>(s: seq<T>)
    requires Distinct(s)
    ensures Dedupe(s) == s
  {
    if s != [] {
      var init, last := s[..|s| - 1], s[|s| - 1];
      assert s == init + [last];
      assert Distinct(init);
      assert last !in init by {
        forall k | 0 <= k < |init| ensures init[k] != last {
          assert init[k] == s[k];
        }
      }
      DedupeOfDistinct(init);
      DedupeSnoc(init, last);
    }
  }

  /** Filtering a second time changes nothing. */
  lemma DedupeIdempotent<T>(s: seq<T>)
    ensures Dedupe(Dedupe(s)) == Dedupe(s)
  {
    DedupeDistinct(s);
    DedupeOfDistinct(Dedupe(s));
  }
}
