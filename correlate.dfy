/** The temporal correlator `find_photos`: keep the photos taken inside a
    track's time window and sort them by capture time. */
module Correlate {
  import opened Outcomes
  import opened Catalog

  /** The test of src/lib.rs:175-176 on whole-second timestamps. */
  predicate InWindow(p: Photo, start: int, end: int)
  {
    start <= p.datetime && end >= p.datetime
  }

  /** The photos of `photos` inside the window, in input order. */
  function Filter(photos: seq<Photo>, start: int, end: int): (r: seq<Photo>)
    ensures |r| <= |photos|
  {
    if photos == [] then []
    else
      var p := photos[|photos| - 1];
      Filter(photos[..|photos| - 1], start, end) + (if InWindow(p, start, end) then [p] else [])
  }

  predicate SortedByTime(s: seq<Photo>)
  {
    forall k, l :: 0 <= k < l < |s| ==> s[k].datetime <= s[l].datetime
  }

  predicate DistinctTimes(s: seq<Photo>)
  {
    forall k, l :: 0 <= k < l < |s| ==> s[k].datetime != s[l].datetime
  }

  /** `sort_unstable_by_key(|r| r.datetime.timestamp())` on the vector's
      buffer: sorted by timestamp and a permutation; the order of photos
      with equal timestamps is not specified. */
  method SortByTimestamp(a: array<Photo>)
    modifies a
    ensures SortedByTime(a[..])
    ensures multiset(a[..]) == multiset(old(a[..]))
  {
    var i := 0;
    while i < a.Length
      invariant 0 <= i <= a.Length
      invariant SortedByTime(a[..i])
      invariant multiset(a[..]) == multiset(old(a[..]))
    {
      InsertIntoPrefix(a, i);
      i := i + 1;
    }
    assert a[..a.Length] == a[..];
  }

  /** One step of insertion sort: moves a[i] left into the sorted prefix a[..i]. */
  method InsertIntoPrefix(a: array<Photo>, i: nat)
    requires i < a.Length && SortedByTime(a[..i])
    modifies a
    ensures SortedByTime(a[..i + 1])
    ensures multiset(a[..]) == multiset(old(a[..]))
  {
    var j := i;
    while 0 < j && a[j - 1].datetime > a[j].datetime
      invariant 0 <= j <= i
      invariant forall k, l :: 0 <= k < l <= i && k != j && l != j ==> a[k].datetime <= a[l].datetime
      invariant forall l :: j < l <= i ==> a[j].datetime < a[l].datetime
      invariant multiset(a[..]) == multiset(old(a[..]))
    {
      SwapWithPrevious(a, j);
      j := j - 1;
    }
  }

  method SwapWithPrevious(a: array<Photo>, j: nat)
    requires 0 < j < a.Length
    modifies a
    ensures a[j - 1] == old(a[j]) && a[j] == old(a[j - 1])
    ensures forall m :: 0 <= m < a.Length && m != j - 1 && m != j ==> a[m] == old(a[m])
    ensures multiset(a[..]) == multiset(old(a[..]))
  {
    a[j - 1], a[j] := a[j], a[j - 1];
  }

  /** `find_photos`: `None` exactly when no photo lies in the closed window,
      otherwise the photos in the window, sorted by capture time. */
  method FindPhotos(photos: seq<Photo>, start: int, end: int) returns (r: Option<seq<Photo>>)
    ensures r.None? <==> forall k :: 0 <= k < |photos| ==> !InWindow(photos[k], start, end)
    ensures r.Some? ==> |r.value| > 0 && |r.value| <= |photos|
    ensures r.Some? ==> SortedByTime(r.value)
    ensures r.Some? ==> multiset(r.value) == multiset(Filter(photos, start, end))
  {
    var res: seq<Photo> := [];
    for i := 0 to |photos|
      invariant res == Filter(photos[..i], start, end)
    {
      var p := photos[i];
      assert photos[..i + 1][..i] == photos[..i];
      if start <= p.datetime && end >= p.datetime {
        res := res + [p];
      }
    }
    assert photos[..|photos|] == photos;
    FilterEmptyIff(photos, start, end);
    if |res| > 0 {
      var buf := new Photo[|res|](k requires 0 <= k < |res| => res[k]);
      assert buf[..] == res;
      SortByTimestamp(buf);
      assert |buf[..]| == |multiset(buf[..])| == |multiset(res)| == |res|;
      return Some(buf[..]);
    }
    return None;
  }

  /** Filtering a catalog with one more photo at the end. */
  lemma FilterSnoc(photos: seq<Photo>, p: Photo, start: int, end: int)
    ensures Filter(photos + [p], start, end) == Filter(photos, start, end) + (if InWindow(p, start, end) then [p] else [])
  {
    assert (photos + [p])[..|photos|] == photos;
  }

  /** Soundness and completeness, with multiplicity: a photo occurs in the
      result as often as in the input if it lies in the window, and not at all otherwise. */
  lemma {:induction false} FilterCount(photos: seq<Photo>, start: int, end: int, q: Photo)
    ensures multiset(Filter(photos, start, end))[q] == if InWindow(q, start, end) then multiset(photos)[q] else 0
  {
    if photos != [] {
      var n := |photos| - 1;
      FilterCount(photos[..n], start, end, q);
      assert photos == photos[..n] + [photos[n]];
    }
  }

  lemma FilterMembership(photos: seq<Photo>, start: int, end: int, q: Photo)
    ensures q in Filter(photos, start, end) <==> q in photos && InWindow(q, start, end)
  {
    FilterCount(photos, start, end, q);
  }

  /** Nothing matches exactly when no input photo lies in the window. */
  lemma {:induction false} FilterEmptyIff(photos: seq<Photo>, start: int, end: int)
    ensures Filter(photos, start, end) == [] <==> forall k :: 0 <= k < |photos| ==> !InWindow(photos[k], start, end)
  {
    if photos != [] {
      var n := |photos| - 1;
      FilterEmptyIff(photos[..n], start, end);
      if Filter(photos, start, end) == [] {
        forall k | 0 <= k < |photos| ensures !InWindow(photos[k], start, end) {
          if k < n {
            assert photos[..n][k] == photos[k];
          }
        }
      }
    }
  }

  /** The window is closed at both ends, at whole-second granularity: a
      catalog photo taken exactly at the start or the end is kept, one taken a
      second before the start or after the end is not. */
  lemma WindowIsClosed(photos: seq<Photo>, start: int, end: int, q: Photo)
    requires start <= end && q in photos
    ensures q.datetime == start ==> q in Filter(photos, start, end)
    ensures q.datetime == end ==> q in Filter(photos, start, end)
    ensures q.datetime == start - 1 || q.datetime == end + 1 ==> q !in Filter(photos, start, end)
  {
    FilterMembership(photos, start, end, q);
  }

  /** The catalog's order does not matter: permuted catalogs match the same photos. */
  lemma FilterPermutation(a: seq<Photo>, b: seq<Photo>, start: int, end: int)
    requires multiset(a) == multiset(b)
    ensures multiset(Filter(a, start, end)) == multiset(Filter(b, start, end))
  {
    forall q ensures multiset(Filter(a, start, end))[q] == multiset(Filter(b, start, end))[q] {
      FilterCount(a, start, end, q);
      FilterCount(b, start, end, q);
    }
  }

  /** Without two photos at the same second, a sorted arrangement of a
      multiset of photos is unique. */
  lemma {:induction false} SortedUnique(a: seq<Photo>, b: seq<Photo>)
    requires SortedByTime(a) && SortedByTime(b) && DistinctTimes(a)
    requires multiset(a) == multiset(b)
    ensures a == b
  {
    assert |a| == |multiset(a)| == |multiset(b)| == |b|;
    if |a| > 0 {
      SameFirst(a, b);
      TailMultiset(a);
      TailMultiset(b);
      SortedUnique(a[1..], b[1..]);
      assert a == [a[0]] + a[1..] && b == [b[0]] + b[1..];
    }
  }

  /** Two sorted arrangements of one multiset, the first without equal
      timestamps, begin with the same photo. */
  lemma SameFirst(a: seq<Photo>, b: seq<Photo>)
    requires SortedByTime(a) && SortedByTime(b) && DistinctTimes(a)
    requires multiset(a) == multiset(b) && |a| > 0 && |b| > 0
    ensures a[0] == b[0]
  {
    assert a[0] in multiset(b);
    var j :| 0 <= j < |b| && b[j] == a[0];
    assert b[0] in multiset(a);
    var i :| 0 <= i < |a| && a[i] == b[0];
    assert a[0].datetime <= a[i].datetime;
    assert b[0].datetime <= b[j].datetime;
  }

  lemma TailMultiset(s: seq<Photo>)
    requires |s| > 0
    ensures multiset(s[1..]) == multiset(s) - multiset{s[0]}
  {
    assert s == [s[0]] + s[1..];
  }

  /** For a catalog without two photos at the same second, every result
      `find_photos` can return is the same, whatever the catalog's order. */
  lemma Deterministic(c1: seq<Photo>, c2: seq<Photo>, start: int, end: int, r1: seq<Photo>, r2: seq<Photo>)
    requires multiset(c1) == multiset(c2) && DistinctTimes(c1)
    requires SortedByTime(r1) && multiset(r1) == multiset(Filter(c1, start, end))
    requires SortedByTime(r2) && multiset(r2) == multiset(Filter(c2, start, end))
    ensures r1 == r2
  {
    FilterPermutation(c1, c2, start, end);
    forall k, l | 0 <= k < l < |r1| ensures r1[k].datetime != r1[l].datetime {
      DistinctSubmultiset(c1, r1, start, end, k, l);
    }
    SortedUnique(r1, r2);
  }

  lemma DistinctSubmultiset(c: seq<Photo>, r: seq<Photo>, start: int, end: int, k: int, l: int)
    requires DistinctTimes(c) && multiset(r) == multiset(Filter(c, start, end))
    requires 0 <= k < l < |r|
    ensures r[k].datetime != r[l].datetime
  {
    if r[k].datetime == r[l].datetime {
      assert r[k] in multiset(Filter(c, start, end)) && r[l] in multiset(Filter(c, start, end));
      FilterMembership(c, start, end, r[k]);
      FilterMembership(c, start, end, r[l]);
      assert r[k] in c && r[l] in c;
      var x :| 0 <= x < |c| && c[x] == r[k];
      var y :| 0 <= y < |c| && c[y] == r[l];
      assert x == y;
      assert r == r[..k] + [r[k]] + r[k + 1..l] + [r[l]] + r[l + 1..];
      assert multiset(r)[r[k]] >= 2;
      FilterCount(c, start, end, r[k]);
      assert multiset(c)[c[x]] >= 2;
      OnlyOnce(c, x);
    }
  }

  lemma OnlyOnce(c: seq<Photo>, x: int)
    requires DistinctTimes(c) && 0 <= x < |c|
    ensures multiset(c)[c[x]] == 1
  {
    var pre, post := c[..x], c[x + 1..];
    assert c == pre + [c[x]] + post;
    forall y | 0 <= y < |pre| ensures pre[y] != c[x] {
      assert pre[y] == c[y];
    }
    forall y | 0 <= y < |post| ensures post[y] != c[x] {
      assert post[y] == c[x + 1 + y];
    }
  }
}
