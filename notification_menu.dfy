/** The notification menu of the navigation bar: the unread badge, the
    local update after a notification is marked read, and the marks issued
    when the menu opens or an item is clicked. */
module NotificationMenu {
  import opened Wrappers

  const NoLinkHref: string := "#"

  /** A notification as the menu holds it. */
  datatype Item = Item(id: nat, message: string, link: string, isRead: bool, createdAt: int)

  /** `notifications.filter(n => !n.isRead).length`. */
  function UnreadCount(ns: seq<Item>): (r: nat)
    ensures r <= |ns|
    ensures r == 0 <==> forall k :: 0 <= k < |ns| ==> ns[k].isRead
  {
    if ns == [] then 0
    else
      var rest := UnreadCount(ns[1..]);
      assert (forall k :: 0 <= k < |ns| ==> ns[k].isRead) <==>
        ns[0].isRead && forall k :: 0 <= k < |ns[1..]| ==> ns[1..][k].isRead;
      (if ns[0].isRead then 0 else 1) + rest
  }

  /** The positions of the unread items. */
  function UnreadIndices(ns: seq<Item>): set<nat>
  {
    set k: nat | k < |ns| && !ns[k].isRead
  }

  /** Counting a list in two parts adds the counts of the parts. */
  lemma {:induction false} UnreadCountAppend(a: seq<Item>, b: seq<Item>)
    ensures UnreadCount(a + b) == UnreadCount(a) + UnreadCount(b)
  {
    if a == [] {
      assert a + b == b;
    } else {
      assert (a + b)[1..] == a[1..] + b;
      UnreadCountAppend(a[1..], b);
    }
  }

  /** The unread positions of a list are those of all but its last item,
      plus the last position when that item is unread. */
  lemma UnreadIndicesSnoc(ns: seq<Item>)
    requires ns != []
    ensures var n := |ns| - 1;
      UnreadIndices(ns) == UnreadIndices(ns[..n]) + (if ns[n].isRead then {} else {n})
  {
    var n := |ns| - 1;
    forall k: nat | k < n
      ensures ns[..n][k] == ns[k]
    {
    }
  }

  /** The count is the number of unread items. */
  lemma {:induction false} UnreadCountCountsUnread(ns: seq<Item>)
    ensures UnreadCount(ns) == |UnreadIndices(ns)|
  {
    if ns != [] {
      var n := |ns| - 1;
      var init := ns[..n];
      assert UnreadCount(ns) == UnreadCount(init) + (if ns[n].isRead then 0 else 1) by {
        assert ns == init + [ns[n]];
        UnreadCountAppend(init, [ns[n]]);
        assert UnreadCount([ns[n]]) == if ns[n].isRead then 0 else 1;
      }
      UnreadIndicesSnoc(ns);
      UnreadCountCountsUnread(init);
    }
  }

  /** The badge shows the count only when something is unread. */
  function ShowBadge(ns: seq<Item>): (shown: bool)
    ensures shown <==> exists k :: 0 <= k < |ns| && !ns[k].isRead
  {
    UnreadCount(ns) > 0
  }

  /** The link an item opens: its own, or `#` when it has none. */
  function Href(n: Item): (href: string)
    ensures href != []
    ensures n.link != [] ==> href == n.link
    ensures n.link == [] ==> href == NoLinkHref
  {
    if n.link != [] then n.link else NoLinkHref
  }

  /** The list after `id` was marked read on the server:
      `prev.map(n => n._id === id ? { ...n, isRead: true } : n)`. */
  function MarkRead(ns: seq<Item>, id: nat): (r: seq<Item>)
    ensures |r| == |ns|
    ensures forall k :: 0 <= k < |ns| ==>
      r[k] == if ns[k].id == id then ns[k].(isRead := true) else ns[k]
  {
    seq(|ns|, k requires 0 <= k < |ns| => if ns[k].id == id then ns[k].(isRead := true) else ns[k])
  }

  /** Whether an unread item carries `id`. */
  predicate UnreadWithId(ns: seq<Item>, id: nat)
  {
    exists k :: 0 <= k < |ns| && ns[k].id == id && !ns[k].isRead
  }

  /** Marking never raises the count, and lowers it exactly when an unread
      item had that id. */
  lemma {:induction false} MarkReadLowersCount(ns: seq<Item>, id: nat)
    ensures UnreadCount(MarkRead(ns, id)) <= UnreadCount(ns)
    ensures UnreadCount(MarkRead(ns, id)) < UnreadCount(ns) <==> UnreadWithId(ns, id)
  {
    if ns != [] {
      var r := MarkRead(ns, id);
      MarkReadLowersCount(ns[1..], id);
      assert r[1..] == MarkRead(ns[1..], id);
      assert UnreadWithId(ns, id) <==>
        (ns[0].id == id && !ns[0].isRead) || UnreadWithId(ns[1..], id) by {
        if UnreadWithId(ns, id) {
          var k :| 0 <= k < |ns| && ns[k].id == id && !ns[k].isRead;
          if k > 0 { assert ns[1..][k - 1] == ns[k]; }
        }
        if UnreadWithId(ns[1..], id) {
          var k :| 0 <= k < |ns[1..]| && ns[1..][k].id == id && !ns[1..][k].isRead;
          assert ns[k + 1] == ns[1..][k];
        }
      }
    }
  }

  /** Marking an id that no unread item carries leaves the list as it is. */
  lemma MarkReadOfReadIsNoOp(ns: seq<Item>, id: nat)
    requires !UnreadWithId(ns, id)
    ensures MarkRead(ns, id) == ns
  {
    var r := MarkRead(ns, id);
    forall k | 0 <= k < |ns|
      ensures r[k] == ns[k]
    {
      if ns[k].id == id {
        assert ns[k].isRead;
      }
    }
  }

  /** Marking the same id twice is marking it once. */
  lemma MarkReadIdempotent(ns: seq<Item>, id: nat)
    ensures MarkRead(MarkRead(ns, id), id) == MarkRead(ns, id)
  {
    var r := MarkRead(ns, id);
    assert !UnreadWithId(r, id);
    MarkReadOfReadIsNoOp(r, id);
  }

  /** Marks may complete in any order: two marks commute. */
  lemma MarkReadCommutes(ns: seq<Item>, a: nat, b: nat)
    ensures MarkRead(MarkRead(ns, a), b) == MarkRead(MarkRead(ns, b), a)
  {
  }

  /** The list after each id in `ids` was marked, in that order. */
  function ApplyMarks(ns: seq<Item>, ids: seq<nat>): seq<Item>
    decreases |ids|
  {
    if ids == [] then ns else ApplyMarks(MarkRead(ns, ids[0]), ids[1..])
  }

  /** The ids of the unread items, in list order. */
  function UnreadIds(ns: seq<Item>): (ids: seq<nat>)
    ensures |ids| == UnreadCount(ns)
    ensures forall k :: 0 <= k < |ns| && !ns[k].isRead ==> ns[k].id in ids
    ensures forall id :: id in ids ==> UnreadWithId(ns, id)
  {
    if ns == [] then []
    else
      var rest := UnreadIds(ns[1..]);
      assert forall k :: 1 <= k < |ns| ==> ns[k] == ns[1..][k - 1];
      assert forall id :: UnreadWithId(ns[1..], id) ==> UnreadWithId(ns, id) by {
        forall id | UnreadWithId(ns[1..], id)
          ensures UnreadWithId(ns, id)
        {
          var k :| 0 <= k < |ns[1..]| && ns[1..][k].id == id && !ns[1..][k].isRead;
          assert ns[k + 1] == ns[1..][k];
        }
      }
      if ns[0].isRead then rest else [ns[0].id] + rest
  }

  /** Marking more items read never makes one unread again. */
  lemma {:induction false} ApplyMarksKeepsRead(ns: seq<Item>, ids: seq<nat>)
    ensures |ApplyMarks(ns, ids)| == |ns|
    ensures forall k :: 0 <= k < |ns| && ns[k].isRead ==> ApplyMarks(ns, ids)[k].isRead
    decreases |ids|
  {
    if ids != [] {
      ApplyMarksKeepsRead(MarkRead(ns, ids[0]), ids[1..]);
    }
  }

  /** An item whose id is among the marks ends up read. */
  lemma {:induction false} ApplyMarksReadsListed(ns: seq<Item>, ids: seq<nat>, k: int)
    requires 0 <= k < |ns| && ns[k].id in ids
    ensures |ApplyMarks(ns, ids)| == |ns| && ApplyMarks(ns, ids)[k].isRead
    decreases |ids|
  {
    if ids[0] == ns[k].id {
      ApplyMarksKeepsRead(MarkRead(ns, ids[0]), ids[1..]);
    } else {
      ApplyMarksReadsListed(MarkRead(ns, ids[0]), ids[1..], k);
    }
  }

  /** Once every mark issued for the unread items has completed, nothing is
      unread. */
  lemma AllMarksClearUnread(ns: seq<Item>)
    ensures UnreadCount(ApplyMarks(ns, UnreadIds(ns))) == 0
  {
    var ids := UnreadIds(ns);
    var r := ApplyMarks(ns, ids);
    ApplyMarksKeepsRead(ns, ids);
    forall k | 0 <= k < |r|
      ensures r[k].isRead
    {
      if !ns[k].isRead {
        ApplyMarksReadsListed(ns, ids, k);
      }
    }
  }

  /** The marks the menu issues when it opens: one per unread item, in list
      order, when the menu is open and something is unread; none otherwise.
      The list is the one held when the menu opens. */
  method MarkAllOnOpen(open: bool, ns: seq<Item>) returns (issued: seq<nat>)
    ensures issued == if open && ShowBadge(ns) then UnreadIds(ns) else []
    ensures open ==> |issued| == UnreadCount(ns)
  {
    issued := [];
    if open && ShowBadge(ns) {
      var i := 0;
      while i < |ns|
        invariant 0 <= i <= |ns|
        invariant issued + UnreadIds(ns[i..]) == UnreadIds(ns)
        decreases |ns| - i
      {
        UnreadIdsStep(ns, i);
        if !ns[i].isRead {
          assert issued + UnreadIds(ns[i..]) == (issued + [ns[i].id]) + UnreadIds(ns[i + 1..]);
          issued := issued + [ns[i].id];
        }
        i := i + 1;
      }
      assert ns[i..] == [];
    }
  }

  /** One step of the scan: the unread ids from index `i` on. */
  lemma UnreadIdsStep(ns: seq<Item>, i: int)
    requires 0 <= i < |ns|
    ensures UnreadIds(ns[i..]) == (if ns[i].isRead then [] else [ns[i].id]) + UnreadIds(ns[i + 1..])
  {
    assert ns[i..][1..] == ns[i + 1..];
  }

  /** What a click on an item does: it is marked when it was unread, and the
      menu closes. */
  datatype ClickEffect = ClickEffect(mark: Option<nat>, open: bool)

  function ItemClick(n: Item): (e: ClickEffect)
    ensures !e.open
    ensures e.mark.Some? <==> !n.isRead
    ensures e.mark.Some? ==> e.mark.value == n.id
  {
    ClickEffect(if n.isRead then None else Some(n.id), false)
  }

  /** After a click on an unread item has been marked, that item is read. */
  lemma ClickedItemIsRead(ns: seq<Item>, k: int)
    requires 0 <= k < |ns| && ItemClick(ns[k]).mark.Some?
    ensures MarkRead(ns, ItemClick(ns[k]).mark.value)[k].isRead
  {
  }
}
