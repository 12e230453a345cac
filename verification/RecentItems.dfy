/** The command palette's recent items: a list of five, newest first, without duplicates. */
module RecentItems {
  import opened Common

  const MAX_RECENT := 5

  datatype Item = Item(id: string, text: string, description: Option<string>, category: string, href: string,
                       external: Option<bool>)

  function Marked(item: Item): Item {
    item.(category := "recent")
  }

  /** The list without the items of an id. */
  function Without(items: seq<Item>, id: string): seq<Item> {
    if items == [] then []
    else (if items[0].id == id then [] else [items[0]]) + Without(items[1..], id)
  }

  function Capped(items: seq<Item>): seq<Item> {
    if |items| <= MAX_RECENT then items else items[..MAX_RECENT]
  }

  function AddRecent(stored: seq<Item>, item: Item): seq<Item> {
    Capped([Marked(item)] + Without(stored, item.id))
  }

  /** The stored list after some items were chosen, the last one latest. */
  function Stored(uses: seq<Item>): seq<Item> {
    if uses == [] then [] else AddRecent(Stored(uses[..|uses| - 1]), uses[|uses| - 1])
  }

  class RecentStore {
    var recent: seq<Item>
    ghost var uses: seq<Item> // all items chosen so far

    ghost predicate Valid()
      reads this
    {
      recent == Stored(uses)
    }

    constructor ()
      ensures Valid() && uses == []
    {
      recent, uses := [], [];
    }

    method AddRecentItem(item: Item)
      requires Valid()
      modifies this
      ensures Valid() && uses == old(uses) + [item]
      ensures recent == AddRecent(old(recent), item) && MostRecent(recent, uses)
    {
      var filtered := Without(recent, item.id);
      filtered := [item.(category := "recent")] + filtered;
      recent := if |filtered| <= MAX_RECENT then filtered else filtered[..MAX_RECENT];
      uses := uses + [item];
      assert uses[..|uses| - 1] == old(uses);
      StoredAreMostRecent(uses);
    }
  }

  // ---------------------------------------------------------------------------
  // What the list should hold
  // ---------------------------------------------------------------------------

  /** The position of the last use of an id, or -1 if it was never used. */
  function LastUse(uses: seq<Item>, id: string): (i: int)
    ensures -1 <= i < |uses| && (i >= 0 ==> uses[i].id == id)
    ensures forall k :: i < k < |uses| ==> uses[k].id != id
  {
    if uses == [] then -1
    else if uses[|uses| - 1].id == id then |uses| - 1
    else LastUse(uses[..|uses| - 1], id)
  }

  ghost predicate Listed(items: seq<Item>, id: string) {
    exists k :: 0 <= k < |items| && items[k].id == id
  }

  /** An item as it was last used, filed under "recent". */
  ghost predicate AsLastUsed(item: Item, uses: seq<Item>) {
    var i := LastUse(uses, item.id);
    && i >= 0 && item.category == "recent"
    && item.text == uses[i].text && item.description == uses[i].description
    && item.href == uses[i].href && item.external == uses[i].external
  }

  /** Every listed item is the latest use of its id, and they come latest first. */
  ghost predicate LatestFirst(items: seq<Item>, uses: seq<Item>) {
    && (forall i :: 0 <= i < |items| ==> AsLastUsed(items[i], uses))
    && (forall i, j :: 0 <= i < j < |items| ==> LastUse(uses, items[i].id) > LastUse(uses, items[j].id))
  }

  /**
   The listed items are the most recent ones: an id that is missing was last used
   before all of them, and only misses because the list is full.
   */
  ghost predicate MostRecent(items: seq<Item>, uses: seq<Item>) {
    && |items| <= 5
    && LatestFirst(items, uses)
    && (forall k :: 0 <= k < |uses| && !Listed(items, uses[k].id) ==>
          && |items| == 5
          && forall i :: 0 <= i < |items| ==> LastUse(uses, uses[k].id) < LastUse(uses, items[i].id))
  }

  lemma {:induction false} WithoutFilters(items: seq<Item>, id: string)
    ensures |Without(items, id)| <= |items|
    ensures forall x :: x in Without(items, id) <==> x in items && x.id != id
  {
    if items != [] {
      WithoutFilters(items[1..], id);
      assert items == [items[0]] + items[1..];
    }
  }

  lemma {:induction false} WithoutAppend(a: seq<Item>, b: seq<Item>, id: string)
    ensures Without(a + b, id) == Without(a, id) + Without(b, id)
  {
    if a == [] {
      assert a + b == b;
    } else {
      assert (a + b)[1..] == a[1..] + b;
      WithoutAppend(a[1..], b, id);
    }
  }

  ghost predicate Distinct(items: seq<Item>) {
    forall i, j :: 0 <= i < j < |items| ==> items[i].id != items[j].id
  }

  /** In a list without duplicates at most one item goes. */
  lemma {:induction false} WithoutLength(items: seq<Item>, id: string)
    requires Distinct(items)
    ensures |Without(items, id)| >= |items| - 1
    ensures !Listed(items, id) ==> Without(items, id) == items
  {
    if items != [] {
      var rest := items[1..];
      WithoutLength(rest, id);
      if items[0].id == id {
        assert !Listed(rest, id);
      } else if Listed(rest, id) {
        var k :| 0 <= k < |rest| && rest[k].id == id;
        assert items[k + 1].id == id;
      } else {
        assert items == [items[0]] + rest;
      }
    }
  }

  lemma {:induction false} FirstIsLatest(items: seq<Item>, uses: seq<Item>, x: Item)
    requires items != [] && LatestFirst(items, uses) && x in items[1..]
    ensures AsLastUsed(x, uses) && LastUse(uses, items[0].id) > LastUse(uses, x.id)
  {
    var k :| 0 <= k < |items[1..]| && items[1..][k] == x;
    assert items[k + 1] == x;
  }

  lemma {:induction false} LatestFirstCons(x: Item, items: seq<Item>, uses: seq<Item>)
    requires AsLastUsed(x, uses) && LatestFirst(items, uses)
    requires forall i :: 0 <= i < |items| ==> LastUse(uses, x.id) > LastUse(uses, items[i].id)
    ensures LatestFirst([x] + items, uses)
  {
  }

  lemma {:induction false} WithoutKeepsOrder(items: seq<Item>, uses: seq<Item>, id: string)
    requires LatestFirst(items, uses)
    ensures LatestFirst(Without(items, id), uses)
  {
    if items != [] {
      var kept := Without(items[1..], id);
      WithoutKeepsOrder(items[1..], uses, id);
      WithoutFilters(items[1..], id);
      if items[0].id != id {
        forall i | 0 <= i < |kept| ensures LastUse(uses, items[0].id) > LastUse(uses, kept[i].id) {
          FirstIsLatest(items, uses, kept[i]);
        }
        LatestFirstCons(items[0], kept, uses);
      }
    }
  }

  /** The newest use goes first. */
  lemma {:induction false} UseGoesFirst(items: seq<Item>, uses: seq<Item>, x: Item)
    requires LatestFirst(items, uses) && !Listed(items, x.id)
    ensures LatestFirst([Marked(x)] + items, uses + [x])
  {
    var later := uses + [x];
    forall i | 0 <= i < |items|
      ensures LastUse(later, items[i].id) == LastUse(uses, items[i].id) && AsLastUsed(items[i], later)
    {
      assert AsLastUsed(items[i], uses);
    }
    LatestFirstCons(Marked(x), items, later);
  }

  lemma {:induction false} NotListedWithout(items: seq<Item>, id: string)
    ensures !Listed(Without(items, id), id)
  {
    WithoutFilters(items, id);
  }

  /** The list of all used items, were it never cut. */
  function Unbounded(uses: seq<Item>): seq<Item> {
    if uses == [] then []
    else [Marked(uses[|uses| - 1])] + Without(Unbounded(uses[..|uses| - 1]), uses[|uses| - 1].id)
  }

  lemma {:induction false} StillListed(items: seq<Item>, x: Item, id: string)
    requires id == x.id || Listed(items, id)
    ensures Listed([Marked(x)] + Without(items, x.id), id)
  {
    var kept := Without(items, x.id);
    var all := [Marked(x)] + kept;
    if id == x.id {
      assert all[0].id == id;
    } else {
      var i :| 0 <= i < |items| && items[i].id == id;
      WithoutFilters(items, x.id);
      assert items[i] in kept;
      var j :| 0 <= j < |kept| && kept[j] == items[i];
      assert all[j + 1] == kept[j];
    }
  }

  /** Uncut, the list holds every used id. */
  lemma {:induction false} UnboundedLists(uses: seq<Item>, k: nat)
    requires k < |uses|
    ensures Listed(Unbounded(uses), uses[k].id)
  {
    var before, x := uses[..|uses| - 1], uses[|uses| - 1];
    if uses[k].id != x.id {
      UnboundedLists(before, k);
    }
    StillListed(Unbounded(before), x, uses[k].id);
  }

  /** Uncut, the list ranks every id by its latest use. */
  lemma {:induction false} UnboundedRanks(uses: seq<Item>)
    ensures LatestFirst(Unbounded(uses), uses)
  {
    if uses != [] {
      var before, x := uses[..|uses| - 1], uses[|uses| - 1];
      UnboundedRanks(before);
      WithoutKeepsOrder(Unbounded(before), before, x.id);
      NotListedWithout(Unbounded(before), x.id);
      UseGoesFirst(Without(Unbounded(before), x.id), before, x);
      assert before + [x] == uses;
    }
  }

  lemma {:induction false} CapThenAdd(items: seq<Item>, x: Item)
    requires Distinct(items)
    ensures AddRecent(Capped(items), x) == Capped([Marked(x)] + Without(items, x.id))
  {
    if |items| > MAX_RECENT {
      var front, back := items[..MAX_RECENT], items[MAX_RECENT..];
      assert items == front + back;
      WithoutAppend(front, back, x.id);
      WithoutLength(front, x.id);
      assert [Marked(x)] + Without(items, x.id) == ([Marked(x)] + Without(front, x.id)) + Without(back, x.id);
    }
  }

  /** Cutting the list at every step loses nothing: it is the uncut list, cut once. */
  lemma {:induction false} CuttingLosesNothing(uses: seq<Item>)
    ensures Stored(uses) == Capped(Unbounded(uses))
  {
    if uses != [] {
      var before, x := uses[..|uses| - 1], uses[|uses| - 1];
      CuttingLosesNothing(before);
      UnboundedRanks(before);
      CapThenAdd(Unbounded(before), x);
    }
  }

  /** After any uses the stored items are the five latest used ones, in that order, each as used last. */
  lemma {:induction false} StoredAreMostRecent(uses: seq<Item>)
    ensures MostRecent(Stored(uses), uses)
  {
    CuttingLosesNothing(uses);
    UnboundedRanks(uses);
    var all, stored := Unbounded(uses), Stored(uses);
    assert forall i :: 0 <= i < |stored| ==> stored[i] == all[i];
    forall k | 0 <= k < |uses| && !Listed(stored, uses[k].id)
      ensures |stored| == MAX_RECENT
      ensures forall i :: 0 <= i < |stored| ==> LastUse(uses, uses[k].id) < LastUse(uses, stored[i].id)
    {
      UnboundedLists(uses, k);
      var j :| 0 <= j < |all| && all[j].id == uses[k].id;
      assert j >= |stored|;
    }
  }
}
