/** bog.go:254-260: the collector's insertion of a finished page into the
    `pages` slice, kept oldest first by the destination's modification
    time. The slice is an array with a length, grown the way `append`
    grows it; `sort.Search` is a binary search and `copy` a shift towards
    the end. */
module Collector {
  import opened Build

  /** Oldest first: no page is later than a page after it. */
  predicate SortedByTime(s: seq<PageRecord>)
  {
    forall i, j :: 0 <= i < j < |s| ==> s[i].dstTime <= s[j].dstTime
  }

  /** How many pages are not later than time `t`. */
  function Slot(s: seq<PageRecord>, t: int): (n: nat)
    ensures n <= |s|
  {
    if s == [] then 0 else (if s[0].dstTime <= t then 1 else 0) + Slot(s[1..], t)
  }

  /** `s` with `p` placed at index `i`. */
  function InsertAt(s: seq<PageRecord>, i: nat, p: PageRecord): (r: seq<PageRecord>)
    requires i <= |s|
    ensures |r| == |s| + 1 && r[i] == p
    ensures r[..i] == s[..i] && r[i + 1..] == s[i..]
  {
    s[..i] + [p] + s[i..]
  }

  /** Inserting adds exactly the one page. */
  lemma InsertAtAddsOne(s: seq<PageRecord>, i: nat, p: PageRecord)
    requires i <= |s|
    ensures multiset(InsertAt(s, i, p)) == multiset(s) + multiset{p}
  {
    assert s == s[..i] + s[i..];
  }

  /** An index that splits `s` into pages not later than `t` and pages
      later than `t` is the number of pages not later than `t`. */
  lemma {:induction false} SlotOfSplit(s: seq<PageRecord>, t: int, i: nat)
    requires i <= |s|
    requires forall k :: 0 <= k < i ==> s[k].dstTime <= t
    requires forall k :: i <= k < |s| ==> s[k].dstTime > t
    ensures Slot(s, t) == i
  {
    if s != [] {
      if i == 0 {
        SlotOfSplit(s[1..], t, 0);
      } else {
        SlotOfSplit(s[1..], t, i - 1);
      }
    }
  }

  /** In a sorted slice the slot is the first index holding a strictly
      later time: every page before it is not later, every page from it on
      is later. */
  lemma {:induction false} SlotIsFirstLater(s: seq<PageRecord>, t: int)
    requires SortedByTime(s)
    ensures forall k :: 0 <= k < Slot(s, t) ==> s[k].dstTime <= t
    ensures forall k :: Slot(s, t) <= k < |s| ==> s[k].dstTime > t
  {
    if s != [] {
      SlotIsFirstLater(s[1..], t);
      forall k | 1 <= k < |s| ensures s[k] == s[1..][k - 1] {
      }
    }
  }

  /** Inserting at the slot keeps the slice sorted, puts the new page after
      every page with the same time (arrival order among equal times) and
      before every later page. */
  lemma InsertAtSlotKeepsSorted(s: seq<PageRecord>, p: PageRecord)
    requires SortedByTime(s)
    ensures var r := InsertAt(s, Slot(s, p.dstTime), p);
      && SortedByTime(r)
      && (forall k :: 0 <= k < |s| && s[k].dstTime == p.dstTime ==> k < Slot(s, p.dstTime))
  {
    var i := Slot(s, p.dstTime);
    SlotIsFirstLater(s, p.dstTime);
    var r := InsertAt(s, i, p);
    InsertAtElements(s, i, p);
    forall a, b | 0 <= a < b < |r| ensures r[a].dstTime <= r[b].dstTime {
      var ta := if a < i then s[a].dstTime else if a == i then p.dstTime else s[a - 1].dstTime;
      var tb := if b < i then s[b].dstTime else if b == i then p.dstTime else s[b - 1].dstTime;
      assert r[a].dstTime == ta && r[b].dstTime == tb;
    }
  }

  /** Where each element of an inserted slice comes from. */
  lemma InsertAtElements(s: seq<PageRecord>, i: nat, p: PageRecord)
    requires i <= |s|
    ensures forall k :: 0 <= k < i ==> InsertAt(s, i, p)[k] == s[k]
    ensures forall k :: i < k <= |s| ==> InsertAt(s, i, p)[k] == s[k - 1]
  {
    var r := InsertAt(s, i, p);
    forall k | 0 <= k < i ensures r[k] == s[k] {
      assert r[k] == r[..i][k];
    }
    forall k | i < k <= |s| ensures r[k] == s[k - 1] {
      assert r[k] == r[i + 1..][k - i - 1];
    }
  }

  /** The slice the collector holds after receiving `arrivals` in order,
      starting from an empty slice. */
  function Collected(arrivals: seq<PageRecord>): (s: seq<PageRecord>)
    ensures |s| == |arrivals|
  {
    if arrivals == [] then []
    else
      var before := Collected(arrivals[..|arrivals| - 1]);
      var p := arrivals[|arrivals| - 1];
      InsertAt(before, Slot(before, p.dstTime), p)
  }

  /** Whatever order pages arrive in, the collected slice is sorted oldest
      first and holds exactly the pages that arrived. */
  lemma {:induction false} CollectedIsSortedPermutation(arrivals: seq<PageRecord>)
    ensures SortedByTime(Collected(arrivals))
    ensures multiset(Collected(arrivals)) == multiset(arrivals)
  {
    if arrivals != [] {
      var init := arrivals[..|arrivals| - 1];
      var p := arrivals[|arrivals| - 1];
      CollectedIsSortedPermutation(init);
      InsertAtSlotKeepsSorted(Collected(init), p);
      InsertAtAddsOne(Collected(init), Slot(Collected(init), p.dstTime), p);
      assert arrivals == init + [p];
    }
  }

  /** The collector's `pages` slice. */
  class Index {
    var buf: array<PageRecord>
    var len: nat

    ghost predicate Valid()
      reads this
    {
      len <= buf.Length
    }

    /** The slice's elements. */
    function Pages(): seq<PageRecord>
      reads this, buf
      requires Valid()
    {
      buf[..len]
    }

    /** `var pages []*pageInfo`: empty. */
    constructor ()
      ensures Valid() && Pages() == []
      ensures fresh(buf)
    {
      buf := new PageRecord[0];
      len := 0;
    }

    /** The binary search of bog.go:254-256 for the first page strictly
        later than time `t`: the smallest index whose page is later, when
        "later than `t`" only turns from false to true along the slice. On
        a sorted slice that is the slot. */
    method Search(t: int) returns (i: nat)
      requires Valid()
      ensures i <= len
      ensures 0 < i ==> buf[i - 1].dstTime <= t
      ensures i < len ==> buf[i].dstTime > t
      ensures SortedByTime(Pages()) ==> i == Slot(Pages(), t)
    {
      var lo, hi := 0, len;
      while lo < hi
        invariant 0 <= lo <= hi <= len
        invariant 0 < lo ==> buf[lo - 1].dstTime <= t
        invariant hi < len ==> buf[hi].dstTime > t
        decreases hi - lo
      {
        var h := (lo + hi) / 2;
        if !(t < buf[h].dstTime) {
          lo := h + 1;
        } else {
          hi := h;
        }
      }
      i := lo;
      if SortedByTime(Pages()) {
        var s := Pages();
        forall k | 0 <= k < i ensures s[k].dstTime <= t {
          assert s[k].dstTime <= s[i - 1].dstTime;
        }
        forall k | i <= k < |s| ensures s[k].dstTime > t {
          assert s[i].dstTime <= s[k].dstTime;
        }
        SlotOfSplit(s, t, i);
      }
    }

    /** `pages = append(pages, nil)`: one more element at the end, in a
        new array of twice the capacity (plus one) when the old one is
        full. */
    method Append(filler: PageRecord)
      requires Valid()
      modifies this, buf
      ensures Valid()
      ensures buf == old(buf) || fresh(buf)
      ensures Pages() == old(Pages()) + [filler]
    {
      if len == buf.Length {
        var bigger := new PageRecord[2 * buf.Length + 1];
        forall k | 0 <= k < len {
          bigger[k] := buf[k];
        }
        buf := bigger;
      }
      buf[len] := filler;
      len := len + 1;
    }

    /** `copy(pages[i+1:], pages[i:])`, done from the end: every element
        from index `i` on moves up by one, the last one falling off, and
        the elements up to `i` stay. */
    method ShiftUp(i: nat)
      requires Valid() && i < len
      modifies buf
      ensures buf[..len] == old(buf[..len])[..i + 1] + old(buf[..len])[i..len - 1]
    {
      var k := len - 1;
      while k > i
        invariant i <= k <= len - 1
        invariant forall j :: 0 <= j <= k ==> buf[j] == old(buf[j])
        invariant forall j :: k < j < len ==> buf[j] == old(buf[j - 1])
        decreases k
      {
        buf[k] := buf[k - 1];
        k := k - 1;
      }
      ShiftedUp(old(buf[..len]), buf[..len], i);
    }

    /** bog.go:254-260: the search, the append, the shift and `pages[i] =
        page`. The slice grows by one, `p` lands at the searched index, the
        pages before it stay and those from it on move up by one. */
    method Insert(p: PageRecord) returns (i: nat)
      requires Valid()
      modifies this, buf
      ensures Valid()
      ensures buf == old(buf) || fresh(buf)
      ensures i <= old(len)
      ensures Pages() == InsertAt(old(Pages()), i, p)
      ensures SortedByTime(old(Pages())) ==> i == Slot(old(Pages()), p.dstTime)
      ensures SortedByTime(old(Pages())) ==> SortedByTime(Pages())
    {
      ghost var s := Pages();
      i := Search(p.dstTime);
      Append(p);
      ShiftUp(i);
      ghost var shifted := buf[..len];
      buf[i] := p;
      assert buf[..len] == shifted[i := p];
      ShiftedThenSet(s, p, i, shifted);
      if SortedByTime(s) {
        InsertAtSlotKeepsSorted(s, p);
      }
    }
  }

  /** The collector's loop of bog.go:246-265 run on the pages in arrival
      order, one `Insert` per page received, starting from an empty slice:
      the slice it ends with is `Collected(arrivals)`, sorted oldest first
      and holding exactly the pages received. */
  method Collect(arrivals: seq<PageRecord>) returns (ix: Index)
    ensures fresh(ix) && ix.Valid()
    ensures ix.Pages() == Collected(arrivals)
    ensures SortedByTime(ix.Pages()) && multiset(ix.Pages()) == multiset(arrivals)
  {
    ix := new Index();
    var n := 0;
    while n < |arrivals|
      invariant 0 <= n <= |arrivals|
      invariant fresh(ix) && fresh(ix.buf) && ix.Valid()
      invariant ix.Pages() == Collected(arrivals[..n])
    {
      var p := arrivals[n];
      CollectedIsSortedPermutation(arrivals[..n]);
      assert arrivals[..n + 1][..n] == arrivals[..n] && arrivals[..n + 1][n] == p;
      var _ := ix.Insert(p);
      n := n + 1;
    }
    assert arrivals[..n] == arrivals;
    CollectedIsSortedPermutation(arrivals);
  }

  /** A slice whose elements up to `i` stay and whose later elements are
      each the one before them in `before` is `before` shifted up at `i`. */
  lemma ShiftedUp(before: seq<PageRecord>, after: seq<PageRecord>, i: nat)
    requires |after| == |before| && i < |before|
    requires forall j :: 0 <= j <= i ==> after[j] == before[j]
    requires forall j :: i < j < |before| ==> after[j] == before[j - 1]
    ensures after == before[..i + 1] + before[i..|before| - 1]
  {
    var want := before[..i + 1] + before[i..|before| - 1];
    forall j | 0 <= j < |after| ensures after[j] == want[j] {
      if j <= i {
        assert want[j] == before[..i + 1][j];
      } else {
        assert want[j] == before[i..|before| - 1][j - i - 1];
      }
    }
  }

  /** The slice after the shift, with `p` stored at `i`, is `p` inserted
      at `i`. */
  lemma ShiftedThenSet(s: seq<PageRecord>, p: PageRecord, i: nat, shifted: seq<PageRecord>)
    requires i <= |s|
    requires shifted == (s + [p])[..i + 1] + (s + [p])[i..|s|]
    ensures shifted[i := p] == InsertAt(s, i, p)
  {
    assert (s + [p])[..i + 1] == s[..i] + [(s + [p])[i]];
    assert (s + [p])[i..|s|] == s[i..];
  }
}
