/** The list of user memory regions of an address space. */
module Regions {
  import opened Intervals

  class Region {
    var start: nat
    var end: nat
    var size: int
    var flags: nat
    var prev: Region?
    var next: Region?

    constructor ()
      ensures prev == null && next == null
    {
      start, end, size, flags, prev, next := 0, 0, 0, 0, null, null;
    }

    function Bounds(): Interval
      reads this
    {
      Interval(start, end)
    }
  }

  /** How a change of a region ends; the last for a region whose neighbours are not both there. */
  datatype ModResult = Success | Conflict | NullDereference

  class RegionList {
    var head: Region?
    ghost var list: seq<Region>

    constructor ()
      ensures Valid() && list == []
    {
      head := null;
      list := [];
    }

    ghost function NextOf(i: nat): Region?
      requires i < |list|
      reads this
    {
      if i + 1 < |list| then list[i + 1] else null
    }

    ghost function PrevOf(i: nat): Region?
      requires i < |list|
      reads this
    {
      if i > 0 then list[i - 1] else null
    }

    ghost predicate LinkedAt(i: nat)
      requires i < |list|
      reads this, list[i]
    {
      list[i].next == NextOf(i) && list[i].prev == PrevOf(i)
    }

    /** The regions are distinct and linked both ways in the order of the list. */
    ghost predicate Linked()
      reads this, list
    {
      && (forall i, j :: 0 <= i < j < |list| ==> list[i] != list[j])
      && head == (if list == [] then null else list[0])
      && (forall i :: 0 <= i < |list| ==> LinkedAt(i))
    }

    ghost function Bounds(): (s: seq<Interval>)
      reads this, list
      ensures |s| == |list| && forall i :: 0 <= i < |list| ==> s[i] == list[i].Bounds()
    {
      seq(|list|, i requires 0 <= i < |list| reads this, list => list[i].Bounds())
    }

    /** Linked, and no address in two regions. */
    ghost predicate Valid()
      reads this, list
    {
      Linked() && Disjoint(Bounds())
    }

    /** mm_conflicts */
    method Conflicts(start: nat, end: nat) returns (found: bool)
      requires Linked()
      ensures found <==> AnyClash(Bounds(), start, end)
    {
      var region := head;
      ghost var i := 0;
      while region != null
        invariant i <= |list| && region == (if i < |list| then list[i] else null)
        invariant forall j :: 0 <= j < i ==> !Clash(Bounds()[j], start, end)
        decreases |list| - i
      {
        assert LinkedAt(i) && Bounds()[i] == region.Bounds();
        if start >= region.start && start < region.end {
          return true;
        }
        if end > region.start && end <= region.end {
          return true;
        }
        if start <= region.start && end >= region.end {
          return true;
        }
        region := region.next;
        i := i + 1;
      }
      return false;
    }

    /** Puts a region that is not in the list at its head. */
    method PushFront(region: Region)
      requires Linked() && region !in list && region.prev == null && region.next == null
      modifies this, region, if head == null then {} else {head}
      ensures Linked() && list == [region] + old(list)
      ensures region.start == old(region.start) && region.end == old(region.end)
      ensures region.size == old(region.size) && region.flags == old(region.flags)
      ensures forall r :: r in old(list) ==> r.start == old(r.start) && r.end == old(r.end)
      ensures forall r :: r in old(list) ==> r.size == old(r.size) && r.flags == old(r.flags)
    {
      ghost var before := list;
      assert list != [] ==> LinkedAt(0);
      var existing := head;
      head := region;
      if existing != null {
        existing.prev := region;
        region.next := existing;
      }
      list := [region] + list;
      forall i | 0 <= i < |list|
        ensures LinkedAt(i)
      {
        assert i > 0 ==> list[i] == before[i - 1] && old(LinkedAt(i - 1));
      }
    }

    /** mm_mk_region: nothing changes if the interval clashes with a region; otherwise a region for it heads
        the list. Whatever the bounds, no address comes to be in two regions. */
    method MkRegion(start: nat, end: nat, flags: nat) returns (region: Region?)
      requires Valid()
      modifies this, list
      ensures Valid()
      ensures region == null <==> AnyClash(old(Bounds()), start, end)
      ensures region == null ==> list == old(list) && Bounds() == old(Bounds())
      ensures region != null ==>
                && fresh(region) && list == [region] + old(list) && region.flags == flags && region.size == end - start
                && Bounds() == [Interval(start, end)] + old(Bounds())
      ensures forall r :: r in old(list) ==> r.size == old(r.size) && r.flags == old(r.flags)
    {
      var conflict := Conflicts(start, end);
      if conflict {
        return null;
      }
      ghost var bounds := Bounds();
      var r := new Region();
      r.start := start;
      r.size := end - start;
      r.end := end;
      r.flags := flags;
      PushFront(r);
      assert Bounds() == [Interval(start, end)] + bounds;
      AddKeepsDisjoint(bounds, start, end);
      return r;
    }

    /** mm_find_region: the one region that contains the address, if any does. */
    method FindRegion(a: nat) returns (region: Region?)
      requires Valid()
      ensures region == null ==> forall r :: r in list ==> !r.Bounds().Contains(a)
      ensures region != null ==> region in list && region.Bounds().Contains(a)
      ensures region != null ==> forall r :: r in list && r.Bounds().Contains(a) ==> r == region
    {
      region := head;
      ghost var i := 0;
      while region != null
        invariant i <= |list| && region == (if i < |list| then list[i] else null)
        invariant forall j :: 0 <= j < i ==> !list[j].Bounds().Contains(a)
        decreases |list| - i
      {
        if a >= region.start && a < region.end {
          forall j | 0 <= j < |list| && list[j].Bounds().Contains(a)
            ensures list[j] == region
          {
            assert Bounds()[i] == list[i].Bounds() && Bounds()[j] == list[j].Bounds();
            OverlapIsSharing(Bounds()[i], Bounds()[j]);
            OverlapIsSharing(Bounds()[j], Bounds()[i]);
          }
          return;
        }
        assert LinkedAt(i);
        region := region.next;
        i := i + 1;
      }
    }

    /** The first two assignments of mm_mod_region, for a region with both neighbours. */
    method Unlink(region: Region, ghost k: nat)
      requires Linked() && 0 < k < |list| - 1 && list[k] == region
      modifies this`list, list
      ensures Linked() && list == old(list)[..k] + old(list)[k + 1..]
      ensures forall r :: r in old(list) ==> r.start == old(r.start) && r.end == old(r.end)
      ensures forall r :: r in old(list) ==> r.size == old(r.size) && r.flags == old(r.flags)
      ensures region.prev == old(region.prev) && region.next == old(region.next)
    {
      ghost var before := list;
      assert LinkedAt(k) && LinkedAt(k - 1) && LinkedAt(k + 1);
      region.prev.next := region.next;
      region.next.prev := region.prev;
      list := before[..k] + before[k + 1..];
      forall i | 0 <= i < |list|
        ensures LinkedAt(i)
      {
        assert list[i] == before[if i < k then i else i + 1];
        assert old(LinkedAt(if i < k then i else i + 1));
      }
    }

    /** The head of mm_mod_region, with the NULL pointers it may follow. */
    method TakeOut(region: Region, ghost k: nat) returns (unlinked: bool)
      requires Valid() && k < |list| && list[k] == region
      modifies this`list, list
      ensures unlinked <==> 0 < k < |old(list)| - 1
      ensures unlinked ==>
                && Valid() && list == old(list)[..k] + old(list)[k + 1..] && region !in list
                && Bounds() == Without(old(Bounds()), k) && region.Bounds() == old(region.Bounds())
      ensures forall r :: r in old(list) ==> r.size == old(r.size) && r.flags == old(r.flags)
    {
      assert LinkedAt(k);
      if region.prev == null {
        return false;
      }
      if region.next == null {
        region.prev.next := region.next;
        return false;
      }
      ghost var bounds := Bounds();
      Unlink(region, k);
      assert Bounds() == Without(bounds, k);
      RemoveKeepsDisjoint(bounds, k);
      return true;
    }

    /** mm_mod_region. A region at either end of the list makes it follow a NULL pointer. Otherwise the
        region leaves the list, and comes back at its head with the new bounds exactly if they clash with no
        other region; if they do, it stays out, with its old bounds. Either way the list stays linked and
        no address is in two regions. */
    method ModRegion(region: Region, newStart: nat, newEnd: nat, newFlags: nat, ghost k: nat) returns (r: ModResult)
      requires Valid() && k < |list| && list[k] == region
      modifies this, list
      ensures r == NullDereference <==> k == 0 || k == |old(list)| - 1
      ensures r == Conflict ==>
                && Valid() && AnyClash(Without(old(Bounds()), k), newStart, newEnd)
                && list == old(list)[..k] + old(list)[k + 1..]
                && Bounds() == Without(old(Bounds()), k) && region.Bounds() == old(region.Bounds())
      ensures r == Success ==>
                && Valid() && !AnyClash(Without(old(Bounds()), k), newStart, newEnd)
                && list == [region] + old(list)[..k] + old(list)[k + 1..]
                && Bounds() == [Interval(newStart, newEnd)] + Without(old(Bounds()), k)
                && region.flags == newFlags && region.size == newEnd - newStart
      ensures forall o :: o in old(list) && (o != region || r != Success) ==>
                o.size == old(o.size) && o.flags == old(o.flags)
    {
      var unlinked := TakeOut(region, k);
      if !unlinked {
        return NullDereference;
      }
      var conflict := Conflicts(newStart, newEnd);
      if conflict {
        return Conflict;
      }
      Reinsert(region, newStart, newEnd, newFlags);
      return Success;
    }

    /** The end of mm_mod_region: the new values, and back to the head of the list. */
    method Reinsert(region: Region, newStart: nat, newEnd: nat, newFlags: nat)
      requires Valid() && region !in list && !AnyClash(Bounds(), newStart, newEnd)
      modifies this, region, list
      ensures Valid() && list == [region] + old(list)
      ensures Bounds() == [Interval(newStart, newEnd)] + old(Bounds())
      ensures region.flags == newFlags && region.size == newEnd - newStart
      ensures forall r :: r in old(list) ==> r.size == old(r.size) && r.flags == old(r.flags)
    {
      ghost var bounds := Bounds();
      region.start := newStart;
      region.end := newEnd;
      region.size := newEnd - newStart;
      region.next := null;
      region.prev := null;
      region.flags := newFlags;
      assert forall i :: 0 <= i < |list| ==> old(LinkedAt(i)) && LinkedAt(i);
      PushFront(region);
      assert Bounds() == [Interval(newStart, newEnd)] + bounds;
      AddKeepsDisjoint(bounds, newStart, newEnd);
    }
  }
}
