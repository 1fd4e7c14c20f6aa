/** The child list of a node as it is linked on the heap: the edits and the sort work in place. */
module NodeLists {
  import opened CStrings
  import opened Json

  /** The conversion of a size to a 32-bit `int`, which wraps around. */
  function ToInt(n: nat): (i: int)
    ensures n <= INT_MAX ==> i == n
    ensures INT_MIN <= i <= INT_MAX
  {
    var low := n % 0x1_0000_0000;
    if low <= INT_MAX then low else low - 0x1_0000_0000
  }

  function Head(s: seq<Node>): Node? {
    NodeAt(s, 0)
  }

  function NodeAt(s: seq<Node>, i: nat): (n: Node?)
    ensures n == null <==> i >= |s|
  {
    if i < |s| then s[i] else null
  }

  ghost predicate Distinct(s: seq<Node>) {
    forall i, j :: 0 <= i < j < |s| ==> s[i] != s[j]
  }

  ghost predicate NextChain(s: seq<Node>)
    reads s
  {
    forall k {:trigger s[k].next} :: 0 <= k < |s| ==> s[k].next == NodeAt(s, k + 1)
  }

  ghost predicate PrevChain(s: seq<Node>)
    reads s
  {
    forall k {:trigger s[k].prev} :: 0 < k < |s| ==> s[k].prev == s[k-1]
  }

  /** The nodes, in this order, are a list: both links agree, and both ends are null. */
  ghost predicate Linked(s: seq<Node>)
    reads s
  {
    Distinct(s) && NextChain(s) && PrevChain(s) && (s != [] ==> s[0].prev == null)
  }

  /** The places next to a node of a list. */
  lemma Neighbours(s: seq<Node>, at: nat)
    requires Linked(s) && at < |s|
    ensures s[at].prev == (if at > 0 then s[at-1] else null) && s[at].next == NodeAt(s, at + 1)
    ensures at > 0 ==> s[at-1] != s[at] && s[at-1] in s && s[at-1].next == s[at]
    ensures at + 1 < |s| ==> s[at+1] != s[at] && s[at+1] in s && s[at+1].prev == s[at]
    ensures s[at] == s[0] <==> at == 0
  {
  }

  lemma InsertAtEnd<T>(s: seq<T>, x: T)
    ensures s + [x] == InsertAt(s, |s|, x)
  {
  }

  /** Where the nodes of a list are once one more has been put in. */
  lemma InsertedPlaces(s: seq<Node>, at: nat, item: Node)
    requires Distinct(s) && item !in s && at <= |s|
    ensures var t := InsertAt(s, at, item);
            Distinct(t) && (forall k :: 0 <= k < at ==> t[k] == s[k]) && t[at] == item &&
            forall k :: at < k < |t| ==> t[k] == s[k-1]
  {
  }

  lemma InsertedHead(s: seq<Node>, at: nat, item: Node)
    requires at < |s|
    ensures var t := InsertAt(s, at, item); Head(t) == (if at == 0 then item else s[0]) && forall n :: n in t ==> n == item || n in s
  {
  }

  /** The links of a list with a node put in front of another. */
  lemma InsertedLinks(s: seq<Node>, at: nat, item: Node)
    requires Distinct(s) && item !in s && at < |s|
    requires forall k {:trigger s[k].next} :: 0 <= k < |s| && k != at - 1 ==> s[k].next == NodeAt(s, k + 1)
    requires forall k {:trigger s[k].prev} :: 0 < k < |s| && k != at ==> s[k].prev == s[k-1]
    requires at > 0 ==> s[at-1].next == item && s[0].prev == null
    requires s[at].prev == item && item.next == s[at] && item.prev == if at > 0 then s[at-1] else null
    ensures Linked(InsertAt(s, at, item))
  {
    hide Distinct, InsertAt;
    var t := InsertAt(s, at, item);
    InsertedPlaces(s, at, item);
    forall k | 0 <= k < |t| ensures t[k].next == NodeAt(t, k + 1) {
      assert k < at ==> t[k] == s[k];
      assert k > at ==> t[k] == s[k-1];
    }
    forall k | 0 < k < |t| ensures t[k].prev == t[k-1] {
      assert k < at ==> t[k] == s[k] && t[k-1] == s[k-1];
      assert k > at + 1 ==> t[k] == s[k-1] && t[k-1] == s[k-2];
      assert k == at + 1 ==> t[k] == s[at];
    }
  }

  lemma RemovedPlaces(s: seq<Node>, at: nat)
    requires Distinct(s) && at < |s|
    ensures var t := RemoveAt(s, at);
            Distinct(t) && |t| == |s| - 1 && forall k :: 0 <= k < |t| ==> t[k] == s[if k < at then k else k + 1]
  {
  }

  /** The links of a list with one node bridged. */
  lemma RemovedLinks(s: seq<Node>, at: nat)
    requires Distinct(s) && at < |s|
    requires forall k {:trigger s[k].next} :: 0 <= k < |s| && k != at && k != at - 1 ==> s[k].next == NodeAt(s, k + 1)
    requires forall k {:trigger s[k].prev} :: 0 < k < |s| && k != at && k != at + 1 ==> s[k].prev == s[k-1]
    requires at > 0 ==> s[at-1].next == NodeAt(s, at + 1) && s[0].prev == null
    requires at + 1 < |s| ==> s[at+1].prev == if at > 0 then s[at-1] else null
    ensures Linked(RemoveAt(s, at))
  {
    hide Distinct, RemoveAt;
    var t := RemoveAt(s, at);
    RemovedPlaces(s, at);
    forall k | 0 <= k < |t| ensures t[k].next == NodeAt(t, k + 1) {
      assert t[k] == if k < at then s[k] else s[k+1];
    }
    forall k | 0 < k < |t| ensures t[k].prev == t[k-1] {
      assert t[k] == if k < at then s[k] else s[k+1];
      assert t[k-1] == if k - 1 < at then s[k-1] else s[k];
    }
    assert t != [] ==> t[0] == if at > 0 then s[0] else s[1];
  }

  /** The links of a list with one node exchanged. */
  lemma ReplacedLinks(s: seq<Node>, at: nat, item: Node)
    requires Distinct(s) && item !in s && at < |s|
    requires forall k {:trigger s[k].next} :: 0 <= k < |s| && k != at && k != at - 1 ==> s[k].next == NodeAt(s, k + 1)
    requires forall k {:trigger s[k].prev} :: 0 < k < |s| && k != at && k != at + 1 ==> s[k].prev == s[k-1]
    requires (at > 0 ==> s[at-1].next == item && s[0].prev == null) && (at + 1 < |s| ==> s[at+1].prev == item)
    requires item.next == NodeAt(s, at + 1) && item.prev == if at > 0 then s[at-1] else null
    ensures Linked(s[at := item])
  {
    var t := s[at := item];
    forall k | 0 <= k < |t| ensures t[k].next == NodeAt(t, k + 1) && (k > 0 ==> t[k].prev == t[k-1]) {
      assert k != at ==> t[k] == s[k];
    }
  }

  ghost function Tagged(s: seq<Node>): (r: seq<Keyed<Node>>)
    ensures |r| == |s|
    ensures forall i :: 0 <= i < |s| ==> r[i] == Keyed(s[i].key, s[i])
  {
    seq(|s|, i requires 0 <= i < |s| => Keyed(s[i].key, s[i]))
  }

  class Node {
    var next: Node?
    var prev: Node?
    var child: Node?
    const key: CStr
    /** The nodes of the child list, in order. */
    ghost var kids: seq<Node>

    constructor (key: CStr)
      ensures this.key == key && next == null && prev == null && child == null && kids == [] && Valid()
    {
      this.key := key;
      next, prev, child, kids := null, null, null, [];
    }

    ghost predicate Valid()
      reads this, kids
    {
      this !in kids && child == Head(kids) && Linked(kids)
    }

    /** Not in any list. */
    predicate Detached()
      reads this
    {
      next == null && prev == null
    }

    /** `get_array_item`. */
    method GetItem(index: nat) returns (item: Node?)
      requires Valid()
      ensures item == NodeAt(kids, index)
    {
      item := child;
      var left := index;
      while item != null && left > 0
        invariant 0 <= left <= index && item == NodeAt(kids, index - left)
        decreases left
      {
        item, left := item.next, left - 1;
      }
    }

    /** `cJSON_GetArraySize`, which converts the count to an `int`. */
    method GetSize() returns (size: int)
      requires Valid()
      ensures size == ToInt(|kids|)
    {
      var n := 0;
      var c := child;
      while c != null
        invariant n <= |kids| && c == NodeAt(kids, n)
        decreases |kids| - n
      {
        c, n := c.next, n + 1;
      }
      return ToInt(n);
    }

    /** `add_item_to_array`. */
    method AddItem(item: Node)
      requires Valid() && item != this && item !in kids && item.Detached()
      modifies this`child, this`kids, item`prev, kids`next
      ensures Valid() && kids == old(kids) + [item]
    {
      if child == null {
        child := item;
      } else {
        var c, i := child, 0;
        while c.next != null
          invariant i < |kids| && c == kids[i]
          decreases |kids| - i
        {
          c, i := c.next, i + 1;
        }
        c.next := item;
        item.prev := c;
      }
      kids := kids + [item];
    }

    /** `cJSON_InsertItemInArray`: beyond the end it appends. */
    method InsertItem(which: int, item: Node)
      requires Valid() && item != this && item !in kids && item.Detached()
      modifies this`child, this`kids, item`prev, item`next, kids`next, kids`prev
      ensures Valid()
      ensures kids == if which < 0 then old(kids)
                      else InsertAt(old(kids), if which < |old(kids)| then which else |old(kids)|, item)
      ensures which < 0 ==> item.Detached()
    {
      if which < 0 {
        return;
      }
      var after := GetItem(which);
      if after == null {
        AddItem(item);
        InsertAtEnd(old(kids), item);
      } else {
        assert after == kids[which];
        LinkBefore(after, item, which);
      }
    }

    /** `insert_item_in_array` of the utilities, which refuses an index beyond the end. */
    method InsertStrictly(which: nat, item: Node) returns (ok: bool)
      requires Valid() && item != this && item !in kids && item.Detached()
      modifies this`child, this`kids, item`prev, item`next, kids`next, kids`prev
      ensures Valid() && ok == (which <= |old(kids)|)
      ensures kids == if ok then InsertAt(old(kids), which, item) else old(kids)
      ensures !ok ==> item.Detached()
    {
      var c, left := child, which;
      while c != null && left > 0
        invariant 0 <= left <= which && which - left <= |kids| && c == NodeAt(kids, which - left)
        decreases left
      {
        c, left := c.next, left - 1;
      }
      if left > 0 {
        return false;
      }
      if c == null {
        AddItem(item);
        InsertAtEnd(old(kids), item);
      } else {
        LinkBefore(c, item, which);
      }
      return true;
    }

    /** The relinking both insertions share. */
    method LinkBefore(after: Node, item: Node, ghost at: nat)
      requires Valid() && item != this && item !in kids && at < |kids| && after == kids[at]
      modifies this`child, this`kids, item`prev, item`next, kids`next, kids`prev
      ensures Valid() && kids == InsertAt(old(kids), at, item)
    {
      hide InsertAt;
      ghost var s := kids;
      Neighbours(s, at);
      assert forall k :: 0 <= k < |s| ==> s[k] != item;
      item.next := after;
      item.prev := after.prev;
      after.prev := item;
      if after == child {
        child := item;
      } else {
        item.prev.next := item;
      }
      InsertedLinks(s, at, item);
      InsertedHead(s, at, item);
      kids := InsertAt(s, at, item);
    }

    /** `cJSON_DetachItemViaPointer`, for an item of this list. */
    method DetachItem(item: Node, ghost at: nat)
      requires Valid() && at < |kids| && item == kids[at]
      modifies this`child, this`kids, kids`next, kids`prev
      ensures Valid() && kids == RemoveAt(old(kids), at) && item.Detached()
    {
      ghost var s := kids;
      Neighbours(s, at);
      if item.prev != null {
        item.prev.next := item.next;
      }
      if item.next != null {
        item.next.prev := item.prev;
      }
      if item == child {
        child := item.next;
      }
      item.prev, item.next := null, null;
      kids := RemoveAt(s, at);
      RemovedLinks(s, at);
    }

    /** `cJSON_DetachItemFromArray`, and `detach_item_from_array` of the utilities. */
    method DetachAt(which: int) returns (item: Node?)
      requires Valid()
      modifies this`child, this`kids, kids`next, kids`prev
      ensures Valid()
      ensures if 0 <= which < |old(kids)| then item == old(kids)[which] && item.Detached() && kids == RemoveAt(old(kids), which)
              else item == null && kids == old(kids)
    {
      if which < 0 {
        return null;
      }
      item := GetItem(which);
      if item != null {
        DetachItem(item, which);
      }
    }

    /** `cJSON_ReplaceItemViaPointer`, for an item of this list. */
    method ReplaceItem(item: Node, replacement: Node, ghost at: nat)
      requires Valid() && at < |kids| && item == kids[at]
      requires replacement == item || (replacement != this && replacement !in kids)
      modifies this`child, this`kids, replacement`next, replacement`prev, kids`next, kids`prev
      ensures Valid() && kids == old(kids)[at := replacement] && (replacement != item ==> item.Detached())
    {
      if replacement == item {
        return;
      }
      ghost var s := kids;
      Neighbours(s, at);
      replacement.next := item.next;
      replacement.prev := item.prev;
      if replacement.next != null {
        replacement.next.prev := replacement;
      }
      if replacement.prev != null {
        replacement.prev.next := replacement;
      }
      if child == item {
        child := replacement;
      }
      item.next, item.prev := null, null;
      kids := s[at := replacement];
      ReplacedLinks(s, at, replacement);
    }

    /** `cJSON_ReplaceItemInArray`: an index without an item changes nothing. */
    method ReplaceAt(which: int, replacement: Node)
      requires Valid() && replacement != this && replacement !in kids
      modifies this`child, this`kids, replacement`next, replacement`prev, kids`next, kids`prev
      ensures Valid()
      ensures if 0 <= which < |old(kids)| then kids == old(kids)[which := replacement] && old(kids)[which].Detached()
              else kids == old(kids) && replacement.next == old(replacement.next) && replacement.prev == old(replacement.prev)
    {
      if which < 0 {
        return;
      }
      var item := GetItem(which);
      if item != null {
        ReplaceItem(item, replacement, which);
      }
    }

    /** One edit of a run. A node of the list, or the item, that is not in the list afterwards is detached. */
    method Perform(e: ListEdit)
      requires Valid() && (e.Brings() ==> e.item != this && e.item !in kids && e.item.Detached())
      modifies this`child, this`kids, kids`next, kids`prev, e.Items()`next, e.Items()`prev
      ensures Valid() && kids == Edited(old(kids), e)
      ensures forall n :: n in old(kids) && n !in kids ==> n.Detached()
      ensures forall n :: n in e.Items() && n !in kids ==> n.Detached()
    {
      match e {
        case Append(item) => AddItem(item);
        case Insert(which, item) => InsertItem(which, item);
        case StrictInsert(which, item) => var ok := InsertStrictly(which, item);
        case Detach(which) => var gone := DetachAt(which);
        case Replace(which, item) => ReplaceAt(which, item);
      }
      LeftOut(old(kids), e);
    }

    /** Any run of edits, each bringing in an item that is not in the list at that moment, be it new or
        detached or replaced by an earlier edit. The list stays well formed, its sequence changes as
        the edits say, and every node that is left out is detached. */
    method PerformAll(es: seq<ListEdit>)
      requires Valid() && Possible(kids, es)
      requires forall n :: n in Brought(es) ==> n != this && (n in kids || n.Detached())
      modifies this`child, this`kids, kids`next, kids`prev, Brought(es)`next, Brought(es)`prev
      ensures Valid() && kids == EditedAll(old(kids), es)
      ensures forall n :: n in old(kids) || n in Brought(es) ==> n in kids || n.Detached()
      decreases |es|
    {
      hide Valid, Edited;
      if es != [] {
        ghost var s := kids;
        EditedNodes(s, es[0]);
        BroughtFirst(es);
        Perform(es[0]);
        PerformAll(es[1..]);
      }
    }
  }

  datatype ListEdit =
    | Append(item: Node)
    | Insert(which: int, item: Node)
    | StrictInsert(at: nat, item: Node)
    | Detach(which: int)
    | Replace(which: int, item: Node)
  {
    /** The edit brings an item into the list. */
    predicate Brings() {
      !Detach?
    }

    function Items(): set<Node> {
      if Brings() then {item} else {}
    }
  }

  /** The sequence after an edit: append, insert at the smaller of index and length, remove, update. */
  function Edited(s: seq<Node>, e: ListEdit): seq<Node> {
    match e
    case Append(item) => s + [item]
    case Insert(which, item) => if which < 0 then s else InsertAt(s, if which < |s| then which else |s|, item)
    case StrictInsert(at, item) => if at <= |s| then InsertAt(s, at, item) else s
    case Detach(which) => if 0 <= which < |s| then RemoveAt(s, which) else s
    case Replace(which, item) => if 0 <= which < |s| then s[which := item] else s
  }

  function EditedAll(s: seq<Node>, es: seq<ListEdit>): seq<Node>
    decreases |es|
  {
    if es == [] then s else EditedAll(Edited(s, es[0]), es[1..])
  }

  /** No edit brings in an item that is in the list. */
  ghost predicate Possible(s: seq<Node>, es: seq<ListEdit>)
    decreases |es|
  {
    es == [] || ((es[0].Brings() ==> es[0].item !in s) && Possible(Edited(s, es[0]), es[1..]))
  }

  ghost function Brought(es: seq<ListEdit>): set<Node> {
    set i | 0 <= i < |es| && es[i].Brings() :: es[i].item
  }

  lemma BroughtFirst(es: seq<ListEdit>)
    requires es != []
    ensures Brought(es) == es[0].Items() + Brought(es[1..])
  {
    forall n | n in Brought(es) ensures n in es[0].Items() + Brought(es[1..]) {
      var i :| 0 <= i < |es| && es[i].Brings() && es[i].item == n;
      assert i > 0 ==> es[1..][i-1] == es[i];
    }
    forall n | n in Brought(es[1..]) ensures n in Brought(es) {
      var i :| 0 <= i < |es[1..]| && es[1..][i].Brings() && es[1..][i].item == n;
      assert es[i+1].item == n;
    }
  }

  /** An edit adds no node but its item. */
  lemma EditedNodes(s: seq<Node>, e: ListEdit)
    ensures forall n :: n in Edited(s, e) ==> n in s || n in e.Items()
  {
  }

  /** The only node an edit takes out is the one at its index. */
  lemma LeftOut(s: seq<Node>, e: ListEdit)
    ensures forall n :: n in s && n !in Edited(s, e) ==> (e.Detach? || e.Replace?) && 0 <= e.which < |s| && n == s[e.which]
    ensures forall n :: n in e.Items() && n !in Edited(s, e) ==> Refuses(s, e)
  {
    hide Edited;
    forall n | n in s && n !in Edited(s, e) ensures (e.Detach? || e.Replace?) && 0 <= e.which < |s| && n == s[e.which] {
      var i :| 0 <= i < |s| && s[i] == n;
      if !((e.Detach? || e.Replace?) && 0 <= e.which < |s| && i == e.which) {
        Stays(s, e, i);
      }
    }
    if e.Brings() && !Refuses(s, e) {
      Enters(s, e);
    }
  }

  lemma Stays(s: seq<Node>, e: ListEdit, i: nat)
    requires i < |s| && !((e.Detach? || e.Replace?) && 0 <= e.which < |s| && i == e.which)
    ensures s[i] in Edited(s, e)
  {
    var t := Edited(s, e);
    match e
    case Insert(which, item) =>
      if 0 <= which {
        assert t[if i < which then i else i + 1] == s[i];
      }
    case StrictInsert(at, item) =>
      if at <= |s| {
        assert t[if i < at then i else i + 1] == s[i];
      }
    case Detach(which) =>
      if 0 <= which < |s| {
        assert t[if i < which then i else i - 1] == s[i];
      }
    case Replace(which, item) =>
      if 0 <= which < |s| {
        assert t[i] == s[i];
      }
    case _ =>
  }

  lemma Enters(s: seq<Node>, e: ListEdit)
    requires e.Brings() && !Refuses(s, e)
    ensures e.item in Edited(s, e)
  {
    var t := Edited(s, e);
    match e
    case Append(item) => assert t[|s|] == item;
    case Insert(which, item) => assert t[if which < |s| then which else |s|] == item;
    case StrictInsert(at, item) => assert t[at] == item;
    case Replace(which, item) => assert t[which] == item;
  }

  /** An edit that brings in nothing because of its index. */
  predicate Refuses(s: seq<Node>, e: ListEdit) {
    (e.Insert? && e.which < 0) || (e.StrictInsert? && e.at > |s|) || (e.Replace? && !(0 <= e.which < |s|))
  }
}
