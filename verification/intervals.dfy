/** Address intervals and the conflict test of the region list. */
module Intervals {
  /** The addresses from start up to, and not including, end. */
  datatype Interval = Interval(start: nat, end: nat) {
    predicate Contains(a: nat) {
      start <= a < end
    }
  }

  /** The three comparisons of mm_conflicts for one region. */
  predicate Clash(region: Interval, start: nat, end: nat) {
    || (start >= region.start && start < region.end)
    || (end > region.start && end <= region.end)
    || (start <= region.start && end >= region.end)
  }

  /** The intervals share an address. */
  predicate Overlap(a: Interval, b: Interval) {
    a.start < a.end && b.start < b.end && a.start < b.end && b.start < a.end
  }

  lemma OverlapIsSharing(a: Interval, b: Interval)
    ensures Overlap(a, b) <==> exists x :: a.Contains(x) && b.Contains(x)
  {
    var x := if a.start < b.start then b.start else a.start;
    assert Overlap(a, b) ==> a.Contains(x) && b.Contains(x);
  }

  /** No overlap escapes the test, whatever the bounds. */
  lemma ClashFindsOverlap(region: Interval, start: nat, end: nat)
    requires Overlap(region, Interval(start, end))
    ensures Clash(region, start, end)
  {
  }

  /** The test is overlap, for every region that is not empty, exactly when the requested interval is not
      empty. */
  lemma ClashIsOverlapIff(start: nat, end: nat)
    ensures (forall r: Interval :: r.start < r.end ==> (Clash(r, start, end) <==> Overlap(r, Interval(start, end))))
            <==> start < end
  {
    var r := Interval(start, start + 1);
    assert start >= end ==> Clash(r, start, end) && !Overlap(r, Interval(start, end));
  }

  /** What the test says where there is nothing to overlap: a request that is empty or the wrong way round
      clashes with a region that holds its start or the address before its end, and a region without
      addresses clashes with a request that spans its bounds. */
  lemma ClashOfNothing(region: Interval, start: nat, end: nat)
    ensures region.start < region.end && end <= start ==>
              (Clash(region, start, end) <==> region.Contains(start) || (end > 0 && region.Contains(end - 1)))
    ensures region.end <= region.start ==>
              (Clash(region, start, end) <==> start <= region.start && region.end <= end)
  {
  }

  /** No address is in two of the intervals. */
  predicate Disjoint(s: seq<Interval>) {
    forall i, j :: 0 <= i < j < |s| ==> !Overlap(s[i], s[j])
  }

  predicate AnyClash(s: seq<Interval>, start: nat, end: nat) {
    exists i :: 0 <= i < |s| && Clash(s[i], start, end)
  }

  /** An interval that passes the test joins a disjoint list without overlap. */
  lemma AddKeepsDisjoint(s: seq<Interval>, start: nat, end: nat)
    requires Disjoint(s) && !AnyClash(s, start, end)
    ensures Disjoint([Interval(start, end)] + s)
  {
    forall j | 0 <= j < |s|
      ensures !Overlap(Interval(start, end), s[j])
    {
      if Overlap(s[j], Interval(start, end)) {
        ClashFindsOverlap(s[j], start, end);
      }
    }
    var t := [Interval(start, end)] + s;
    forall i, j | 0 <= i < j < |t|
      ensures !Overlap(t[i], t[j])
    {
      assert i > 0 ==> t[i] == s[i - 1];
      assert t[j] == s[j - 1];
    }
  }

  function Without(s: seq<Interval>, k: nat): seq<Interval>
    requires k < |s|
  {
    s[..k] + s[k + 1..]
  }

  lemma RemoveKeepsDisjoint(s: seq<Interval>, k: nat)
    requires Disjoint(s) && k < |s|
    ensures Disjoint(Without(s, k))
  {
    forall i, j | 0 <= i < j < |s| - 1
      ensures !Overlap(Without(s, k)[i], Without(s, k)[j])
    {
      assert Without(s, k)[i] == s[if i < k then i else i + 1];
      assert Without(s, k)[j] == s[if j < k then j else j + 1];
    }
  }
}
