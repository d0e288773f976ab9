/** Worked examples: a day's track with photos around its window, and a copy
    that fails in the middle of a gallery. */
module Scenarios {
  import opened Catalog
  import opened Correlate
  import opened Materialize

  /** 2024-06-01T08:00:00Z and 2024-06-01T12:00:00Z in seconds since the epoch. */
  const Start := 1717228800
  const End := 1717243200

  /** Photos at 07:59:59, 08:00:00, 10:00:00, 12:00:00 and 12:00:01: every
      result `find_photos` may return holds the three inside the window,
      earliest first. */
  lemma MorningTrack(a: Photo, b: Photo, c: Photo, d: Photo, e: Photo, r: seq<Photo>)
    requires a.datetime == Start - 1 && b.datetime == Start && c.datetime == Start + 7200
    requires d.datetime == End && e.datetime == End + 1
    requires SortedByTime(r) && multiset(r) == multiset(Filter([a, b, c, d, e], Start, End))
    ensures r == [b, c, d]
  {
    MorningFilter(a, b, c, d, e);
    SortedUnique([b, c, d], r);
  }

  lemma MorningFilter(a: Photo, b: Photo, c: Photo, d: Photo, e: Photo)
    requires a.datetime == Start - 1 && b.datetime == Start && c.datetime == Start + 7200
    requires d.datetime == End && e.datetime == End + 1
    ensures Filter([a, b, c, d, e], Start, End) == [b, c, d]
  {
    FilterSnoc([], a, Start, End);
    FilterSnoc([a], b, Start, End);
    FilterSnoc([a, b], c, Start, End);
    FilterSnoc([a, b, c], d, Start, End);
    FilterSnoc([a, b, c, d], e, Start, End);
    assert [] + [a] == [a] && [a] + [b] == [a, b] && [a, b] + [c] == [a, b, c];
    assert [a, b, c] + [d] == [a, b, c, d] && [a, b, c, d] + [e] == [a, b, c, d, e];
    assert Filter([a], Start, End) == [];
    assert Filter([a, b], Start, End) == [b];
    assert Filter([a, b, c], Start, End) == [b, c];
    assert Filter([a, b, c, d], Start, End) == [b, c, d];
  }

  /** Three matched photos whose second copy fails: the gallery lists
      "1.<ext>" and "3.<ext>"; number 2 is skipped, not reused. */
  lemma SecondCopyFails(e1: string, e2: string, e3: string)
    ensures CopiedNames([e1, e2, e3], [true, false, true]) == [TargetName(1, e1), TargetName(3, e3)]
    ensures Decimal.NatToDecimal(1) == "1" && Decimal.NatToDecimal(3) == "3"
  {
    var names := Numbered([e1, e2, e3]);
    var n1, n3 := TargetName(1, e1), TargetName(3, e3);
    assert names[0] == n1 && names[2] == n3;
    var ok := [true, false, true];
    assert names[..2][..1] == [n1] && ok[..2] == [true, false] && ok[..2][..1] == [true];
    assert [n1][..0] == [] && [true][..0] == [];
    assert Select([n1], [true]) == [n1];
    assert Select(names[..2], ok[..2]) == [n1];
  }
}
