/** The intrusive doubly linked ring of list.h. */
module Rings {
  import opened SortedInsertion

  /** A struct td_list_head together with the struct it is embedded in (td_list_entry). */
  class ListHead<T> {
    var next: ListHead?<T>
    var prev: ListHead?<T>
    var entry: T

    /** TD_INIT_LIST_HEAD */
    constructor (entry: T)
      ensures IsRing([this]) && this.entry == entry
    {
      this.entry := entry;
      new;
      next := this;
      prev := this;
    }
  }

  /** The index after i, and the one before it, in a ring of n nodes. */
  function Next(n: nat, i: nat): (k: nat)
    requires i < n
    ensures k < n
  {
    if i + 1 < n then i + 1 else 0
  }

  function Prev(n: nat, i: nat): (k: nat)
    requires i < n
    ensures k < n
  {
    if i > 0 then i - 1 else n - 1
  }

  function Succ<X>(s: seq<X>, i: nat): X
    requires i < |s|
  {
    s[Next(|s|, i)]
  }

  function Pred<X>(s: seq<X>, i: nat): X
    requires i < |s|
  {
    s[Prev(|s|, i)]
  }

  /** The nodes of s, in this order, form one ring: next and prev are inverse to each other all around. */
  ghost predicate IsRing<T>(s: seq<ListHead<T>>)
    reads s
  {
    && |s| > 0
    && (forall i: nat, j: nat :: i < j < |s| ==> s[i] != s[j])
    && (forall i: nat :: i < |s| ==> s[i].next == Succ(s, i))
    && (forall i: nat :: i < |s| ==> s[i].prev == Pred(s, i))
  }

  /** The entries on a list, without the head. */
  function Entries<T>(s: seq<ListHead<T>>): (e: seq<T>)
    reads s
    ensures |e| == if s == [] then 0 else |s| - 1
    ensures forall k :: 0 <= k < |e| ==> e[k] == s[k + 1].entry
  {
    if s == [] then [] else seq(|s| - 1, k requires 0 <= k < |s| - 1 reads s => s[k + 1].entry)
  }

  function Removed<X>(s: seq<X>, i: nat): seq<X>
    requires i < |s|
  {
    s[..i] + s[i + 1..]
  }

  lemma InsertedLinks<X>(s: seq<X>, i: nat, x: X, j: nat)
    requires i < |s| && j <= |s|
    ensures var t := InsertAt(s, i + 1, x);
      && |t| == |s| + 1
      && t[j] == (if j <= i then s[j] else if j == i + 1 then x else s[j - 1])
      && Succ(t, j) == (if j < i then Succ(s, j) else if j == i then x else Succ(s, j - 1))
      && Pred(t, j) == (if j == 0 && i + 1 == |s| then x else if j <= i then Pred(s, j)
                        else if j == i + 1 then s[i] else if j == i + 2 then x else Pred(s, j - 1))
  {}

  /** Node j of the ring without node i is node jj of the whole ring. */
  lemma RemovedLinks<X>(s: seq<X>, i: nat, j: nat)
    requires i < |s| && j + 1 < |s|
    ensures var t, jj := Removed(s, i), if j < i then j else j + 1;
      && |t| == |s| - 1 && t[j] == s[jj]
      && Succ(t, j) == (if Next(|s|, jj) == i then Succ(s, i) else Succ(s, jj))
      && Pred(t, j) == (if Prev(|s|, jj) == i then Pred(s, i) else Pred(s, jj))
  {}

  lemma Inverse(n: nat, i: nat)
    requires i < n
    ensures Next(n, Prev(n, i)) == i == Prev(n, Next(n, i))
    ensures forall j: nat :: j < n && Next(n, j) == i ==> j == Prev(n, i)
    ensures forall j: nat :: j < n && Prev(n, j) == i ==> j == Next(n, i)
  {}

  // ---- insertion and deletion between known neighbours ----

  /** __td_list_add: newe between prev and next, which are s[i] and its successor. */
  method ListAddBetween<T>(newe: ListHead<T>, prev: ListHead<T>, next: ListHead<T>, ghost s: seq<ListHead<T>>,
                           ghost i: nat)
    requires IsRing(s) && newe !in s && i < |s| && prev == s[i] && next == Succ(s, i)
    modifies newe`next, newe`prev, next`prev, prev`next
    ensures IsRing(InsertAt(s, i + 1, newe))
  {
    hide Succ, Pred, InsertAt;
    NextIs(s, i);
    newe.next := next;
    newe.prev := prev;
    next.prev := newe;
    prev.next := newe;
    ghost var t := InsertAt(s, i + 1, newe);
    InsertedLinks(s, i, newe, 0);
    Inverse(|s|, i);
    forall j: nat | j < |t| ensures t[j].next == Succ(t, j) { InsertedLinks(s, i, newe, j); }
    forall j: nat | j < |t| ensures t[j].prev == Pred(t, j) { InsertedLinks(s, i, newe, j); }
    forall j: nat, k: nat | j < k < |t| ensures t[j] != t[k] {
      InsertedLinks(s, i, newe, j);
      InsertedLinks(s, i, newe, k);
    }
  }

  lemma Alone<X>(s: seq<X>, i: nat)
    requires |s| == 1 && i == 0
    ensures Succ(s, 0) == s[0] == Pred(s, 0)
  {}

  lemma NextIs<X>(s: seq<X>, i: nat)
    requires i < |s|
    ensures Succ(s, i) == s[Next(|s|, i)] && Pred(s, i) == s[Prev(|s|, i)]
  {}

  /** __td_list_del: the neighbours of entry, which is s[i], point to each other. */
  method ListDelBetween<T>(prev: ListHead<T>, next: ListHead<T>, ghost s: seq<ListHead<T>>, ghost i: nat)
    requires IsRing(s) && i < |s| && prev == Pred(s, i) && next == Succ(s, i)
    modifies next`prev, prev`next
    ensures |s| > 1 ==> IsRing(Removed(s, i))
    ensures |s| == 1 ==> IsRing(s)
  {
    hide Succ, Pred, Removed, Next, Prev;
    NextIs(s, i);
    next.prev := prev;
    prev.next := next;
    if |s| == 1 {
      Alone(s, i);
    } else {
      ghost var t := Removed(s, i);
      RemovedLinks(s, i, 0);
      Inverse(|s|, i);
      forall j: nat | j < |t| ensures t[j].next == Succ(t, j) { RemovedLinks(s, i, j); }
      forall j: nat | j < |t| ensures t[j].prev == Pred(t, j) { RemovedLinks(s, i, j); }
      forall j: nat, k: nat | j < k < |t| ensures t[j] != t[k] {
        RemovedLinks(s, i, j);
        RemovedLinks(s, i, k);
      }
    }
  }

  // ---- list operations ----

  lemma Ends<X>(s: seq<X>, i: nat)
    requires i < |s|
    ensures Pred(s, 0) == s[|s| - 1] && Succ(s, |s| - 1) == s[0]
    ensures s[i] in s && Succ(s, i) in s && Pred(s, i) in s
    ensures i + 1 < |s| ==> Succ(s, i) == s[i + 1]
    ensures i > 0 ==> Pred(s, i) == s[i - 1]
  {}

  lemma Links<T>(s: seq<ListHead<T>>, i: nat)
    requires IsRing(s) && i < |s|
    ensures s[i].next == Succ(s, i) && s[i].prev == Pred(s, i)
    ensures Pred(s, 0) == s[|s| - 1] && Succ(s, |s| - 1) == s[0]
    ensures s[i] in s && Succ(s, i) in s && Pred(s, i) in s
    ensures i + 1 < |s| ==> Succ(s, i) == s[i + 1]
    ensures i > 0 ==> Pred(s, i) == s[i - 1]
    ensures i > 0 ==> s[i] != s[0]
  {
    hide Succ, Pred;
    Ends(s, i);
  }

  /** Only the links matter. */
  twostate lemma StillRing<T>(s: seq<ListHead<T>>)
    requires old(IsRing(s)) && forall k: nat :: k < |s| ==> s[k].next == old(s[k].next) && s[k].prev == old(s[k].prev)
    ensures IsRing(s)
  {
    hide Succ, Pred;
  }

  lemma OneNode<T>(s: seq<ListHead<T>>, i: nat, k: nat)
    requires IsRing(s) && i < |s| && k < |s|
    ensures s[i] == s[k] <==> i == k
  {}

  lemma NotRemoved<T>(s: seq<ListHead<T>>, i: nat)
    requires IsRing(s) && i < |s|
    ensures s[i] !in Removed(s, i) && |Removed(s, i)| == |s| - 1
    ensures forall k: nat :: k + 1 < |s| ==> Removed(s, i)[k] in s && Removed(s, i)[k] != s[i]
  {
    hide Succ, Pred;
  }

  lemma InsertedEnd<X>(s: seq<X>, x: X)
    ensures InsertAt(s, |s|, x) == s + [x]
  {}

  /** td_list_add: newe behind head, which may be any node of the ring. */
  method ListAdd<T>(newe: ListHead<T>, head: ListHead<T>, ghost s: seq<ListHead<T>>, ghost i: nat)
    requires IsRing(s) && newe !in s && i < |s| && head == s[i]
    modifies newe`next, newe`prev, s`next, s`prev
    ensures IsRing(InsertAt(s, i + 1, newe))
  {
    hide IsRing, Succ, InsertAt;
    Links(s, i);
    ListAddBetween(newe, head, head.next, s, i);
  }

  /** td_list_add_tail: newe in front of the list head. */
  method ListAddTail<T>(newe: ListHead<T>, head: ListHead<T>, ghost s: seq<ListHead<T>>)
    requires |s| > 0 && IsRing(s) && newe !in s && head == s[0]
    modifies newe`next, newe`prev, s`next, s`prev
    ensures IsRing(s + [newe])
  {
    hide IsRing, Succ, Pred, InsertAt;
    Links(s, 0);
    Links(s, |s| - 1);
    ListAddBetween(newe, head.prev, head, s, |s| - 1);
    InsertedEnd(s, newe);
  }

  /** td_list_del: the ring closes behind the entry, whose links are poisoned. */
  method ListDel<T>(entry: ListHead<T>, ghost s: seq<ListHead<T>>, ghost i: nat)
    requires IsRing(s) && i < |s| && entry == s[i] && |s| > 1
    modifies s`next, s`prev
    ensures IsRing(Removed(s, i)) && entry.next == null && entry.prev == null
  {
    hide IsRing, Succ, Pred, Removed;
    Links(s, i);
    NotRemoved(s, i);
    ListDelBetween(entry.prev, entry.next, s, i);
    entry.next := null;
    entry.prev := null;
  }

  /** td_list_del_init: as td_list_del, and the entry becomes a ring of its own. */
  method ListDelInit<T>(entry: ListHead<T>, ghost s: seq<ListHead<T>>, ghost i: nat)
    requires IsRing(s) && i < |s| && entry == s[i]
    modifies s`next, s`prev
    ensures (|s| > 1 ==> IsRing(Removed(s, i))) && IsRing([entry])
  {
    hide IsRing, Succ, Pred, Removed;
    Links(s, i);
    NotRemoved(s, i);
    ListDelBetween(entry.prev, entry.next, s, i);
    entry.next := entry;
    entry.prev := entry;
    SelfRing(entry);
  }

  lemma SelfRing<T>(entry: ListHead<T>)
    requires entry.next == entry == entry.prev
    ensures IsRing([entry])
  {}

  ghost predicate Disjoint<X>(s: seq<X>, t: seq<X>) {
    forall x :: x in s ==> x !in t
  }

  /** Where an entry is moved to: another ring, or what is left of its own. */
  ghost predicate Target<T>(s: seq<ListHead<T>>, i: nat, t: seq<ListHead<T>>)
    requires i < |s|
    reads t
  {
    |t| > 0 && (t == Removed(s, i) || (IsRing(t) && Disjoint(s, t)))
  }

  /** td_list_move: from wherever list is to behind head, which is t[j]. */
  method ListMove<T>(list: ListHead<T>, head: ListHead<T>, ghost s: seq<ListHead<T>>, ghost i: nat,
                     ghost t: seq<ListHead<T>>, ghost j: nat)
    requires IsRing(s) && i < |s| && list == s[i] && Target(s, i, t) && j < |t| && head == t[j]
    modifies s`next, s`prev, t`next, t`prev
    ensures IsRing(InsertAt(t, j + 1, list))
    ensures |s| > 1 && t != Removed(s, i) ==> IsRing(Removed(s, i))
  {
    hide IsRing, Succ, Pred, Removed, InsertAt;
    Links(s, i);
    NotRemoved(s, i);
    ListDelBetween(list.prev, list.next, s, i);
label Deleted:
    ListAdd(list, head, t, j);
    if |s| > 1 && t != Removed(s, i) {
      assert unchanged@Deleted(Removed(s, i));
    }
  }

  /** td_list_move_tail: to the end of the list whose head is t[0]. */
  method ListMoveTail<T>(list: ListHead<T>, head: ListHead<T>, ghost s: seq<ListHead<T>>, ghost i: nat,
                         ghost t: seq<ListHead<T>>)
    requires IsRing(s) && i < |s| && list == s[i] && Target(s, i, t) && head == t[0]
    modifies s`next, s`prev, t`next, t`prev
    ensures IsRing(t + [list])
    ensures |s| > 1 && t != Removed(s, i) ==> IsRing(Removed(s, i))
  {
    hide IsRing, Succ, Pred, Removed, InsertAt;
    Links(s, i);
    NotRemoved(s, i);
    ListDelBetween(list.prev, list.next, s, i);
label Deleted:
    ListAddTail(list, head, t);
    if |s| > 1 && t != Removed(s, i) {
      assert unchanged@Deleted(Removed(s, i));
    }
  }

  /** td_list_empty */
  method ListEmpty<T>(head: ListHead<T>, ghost s: seq<ListHead<T>>) returns (empty: bool)
    requires IsRing(s) && head == s[0]
    ensures empty <==> |s| == 1
  {
    empty := head.next == head;
  }

  // ---- splicing ----

  function Spliced<X>(t: seq<X>, j: nat, s: seq<X>): seq<X>
    requires j < |t| && |s| > 0
  {
    t[..j + 1] + s[1..] + t[j + 1..]
  }

  lemma SplicedLinks<X>(t: seq<X>, j: nat, s: seq<X>, k: nat)
    requires j < |t| && |s| > 1 && k < |t| + |s| - 1
    ensures var r, m := Spliced(t, j, s), |s| - 1;
      && |r| == |t| + m
      && r[k] == (if k <= j then t[k] else if k <= j + m then s[k - j] else t[k - m])
      && Succ(r, k) == (if k < j then Succ(t, k) else if k == j then s[1] else if k < j + m then Succ(s, k - j)
                        else Succ(t, k - m))
      && Pred(r, k) == (if (k == 0 && j + 1 == |t|) || k == j + m + 1 then s[m] else if k <= j then Pred(t, k)
                        else if k == j + 1 then t[j] else if k <= j + m then Pred(s, k - j) else Pred(t, k - m))
  {}

  lemma Apart<X>(s: seq<X>, t: seq<X>)
    requires Disjoint(s, t)
    ensures forall i: nat, j: nat :: i < |s| && j < |t| ==> s[i] != t[j]
  {
    forall i: nat, j: nat | i < |s| && j < |t| ensures s[i] != t[j] { assert s[i] in s && t[j] in t; }
  }

  /** __td_list_splice: the nodes behind the head of s go behind head, which is t[j]. */
  method ListSpliceBetween<T>(list: ListHead<T>, head: ListHead<T>, ghost s: seq<ListHead<T>>,
                              ghost t: seq<ListHead<T>>, ghost j: nat)
    requires IsRing(s) && list == s[0] && |s| > 1 && IsRing(t) && j < |t| && head == t[j] && Disjoint(s, t)
    modifies s`next, s`prev, t`next, t`prev
    ensures IsRing(Spliced(t, j, s))
    ensures list.next == old(list.next) && list.prev == old(list.prev)
  {
    hide Spliced, Succ, Pred, Disjoint;
    Apart(s, t);
    Links(s, 0);
    Ends(t, j);
    var first, last, at := list.next, list.prev, head.next;
    first.prev := head;
    head.next := first;
    last.next := at;
    at.prev := last;
    ghost var r := Spliced(t, j, s);
    SplicedLinks(t, j, s, 0);
    forall k: nat | k < |r| ensures r[k].next == Succ(r, k) { SplicedLinks(t, j, s, k); }
    forall k: nat | k < |r| ensures r[k].prev == Pred(r, k) { SplicedLinks(t, j, s, k); }
    forall k: nat, l: nat | k < l < |r| ensures r[k] != r[l] {
      SplicedLinks(t, j, s, k);
      SplicedLinks(t, j, s, l);
    }
  }

  /** td_list_splice */
  method ListSplice<T>(list: ListHead<T>, head: ListHead<T>, ghost s: seq<ListHead<T>>, ghost t: seq<ListHead<T>>,
                       ghost j: nat)
    requires |s| > 0 && IsRing(s) && list == s[0] && IsRing(t) && j < |t| && head == t[j] && Disjoint(s, t)
    modifies s`next, s`prev, t`next, t`prev
    ensures IsRing(Spliced(t, j, s))
  {
    hide IsRing, Spliced;
    var empty := ListEmpty(list, s);
    if !empty {
      ListSpliceBetween(list, head, s, t, j);
    } else {
      SplicedEmpty(t, j, s);
    }
  }

  /** td_list_splice_init: as td_list_splice, and the emptied list is a ring of its own. */
  method ListSpliceInit<T>(list: ListHead<T>, head: ListHead<T>, ghost s: seq<ListHead<T>>, ghost t: seq<ListHead<T>>,
                           ghost j: nat)
    requires |s| > 0 && IsRing(s) && list == s[0] && IsRing(t) && j < |t| && head == t[j] && Disjoint(s, t)
    modifies s`next, s`prev, t`next, t`prev
    ensures IsRing(Spliced(t, j, s)) && IsRing([list])
  {
    hide IsRing, Spliced;
    var empty := ListEmpty(list, s);
    if !empty {
      HeadNotSpliced(t, j, s);
      ListSpliceBetween(list, head, s, t, j);
      list.next := list;
      list.prev := list;
      SelfRing(list);
    } else {
      SplicedEmpty(t, j, s);
      assert s == [list];
    }
  }

  lemma SplicedEmpty<X>(t: seq<X>, j: nat, s: seq<X>)
    requires j < |t| && |s| == 1
    ensures Spliced(t, j, s) == t
  {}

  lemma HeadNotSpliced<T>(t: seq<ListHead<T>>, j: nat, s: seq<ListHead<T>>)
    requires j < |t| && |s| > 0 && IsRing(s) && Disjoint(s, t)
    ensures s[0] !in Spliced(t, j, s)
  {
    hide Succ, Pred;
    assert s[0] in s;
  }

  // ---- sorted insertion ----

  twostate lemma SameEntries<T>(s: seq<ListHead<T>>)
    requires forall k: nat :: k < |s| ==> s[k].entry == old(s[k].entry)
    ensures Entries(s) == old(Entries(s))
  {}

  lemma EntriesInserted<T>(s: seq<ListHead<T>>, k: nat, newe: ListHead<T>)
    requires k + 1 <= |s|
    ensures Entries(InsertAt(s, k + 1, newe)) == InsertAt(Entries(s), k, newe.entry)
  {
    var e := InsertAt(Entries(s), k, newe.entry);
    forall i: nat | i < |s|
      ensures Entries(InsertAt(s, k + 1, newe))[i] == e[i]
    {
      InsertAtIndex(Entries(s), k, newe.entry, i);
    }
  }

  /** td_list_add_sorted: in front of the first entry that comes after the new one, else at the end. */
  method ListAddSorted<T>(newe: ListHead<T>, head: ListHead<T>, cmp: (T, T) -> int, ghost s: seq<ListHead<T>>)
    requires |s| > 0 && IsRing(s) && head == s[0] && newe !in s
    modifies newe`next, newe`prev, s`next, s`prev
    ensures var k := InsertPosition(cmp, newe.entry, old(Entries(s)));
      && IsRing(InsertAt(s, k + 1, newe))
      && Entries(InsertAt(s, k + 1, newe)) == InsertSorted(cmp, newe.entry, old(Entries(s)))
  {
    hide IsRing, Succ, Pred, InsertAt, InsertPosition, Entries;
    ghost var e := Entries(s);
    ghost var g := 1;
    Links(s, 0);
    var pos := head.next;
    while pos != head
      invariant IsRing(s) && Entries(s) == e
      invariant 1 <= g <= |s| && pos == (if g < |s| then s[g] else s[0])
      invariant forall i: nat :: i < g - 1 ==> cmp(newe.entry, e[i]) >= 0
      decreases |s| - g
    {
      Links(s, g - 1);
      Links(s, g);
      assert pos.entry == e[g - 1];
      if cmp(newe.entry, pos.entry) < 0 {
        ListAddBetween(newe, pos.prev, pos, s, g - 1);
        EntriesInserted(s, g - 1, newe);
        SameEntries(s);
        return;
      }
      pos := pos.next;
      g := g + 1;
    }
    if g < |s| { Links(s, g); assert false; }
    ListAddTail(newe, head, s);
    InsertedEnd(s, newe);
    EntriesInserted(s, |s| - 1, newe);
    SameEntries(s);
  }

  /** td_list_add_sorted_uniq: as td_list_add_sorted, but returns true and leaves the list alone when the search meets
      an equal entry. */
  method ListAddSortedUniq<T>(newe: ListHead<T>, head: ListHead<T>, cmp: (T, T) -> int, ghost s: seq<ListHead<T>>)
    returns (refused: bool)
    requires |s| > 0 && IsRing(s) && head == s[0] && newe !in s
    modifies newe`next, newe`prev, s`next, s`prev
    ensures refused == Refused(cmp, newe.entry, old(Entries(s)))
    ensures refused ==> IsRing(s) && Entries(s) == old(Entries(s))
    ensures !refused ==>
      var k := UniquePosition(cmp, newe.entry, old(Entries(s)));
      && IsRing(InsertAt(s, k + 1, newe))
      && Entries(InsertAt(s, k + 1, newe)) == InsertAt(old(Entries(s)), k, newe.entry)
  {
    hide IsRing, Succ, Pred, InsertAt, UniquePosition, Entries;
    ghost var e := Entries(s);
    ghost var g := 1;
    Links(s, 0);
    var pos := head.next;
    while pos != head
      invariant IsRing(s) && Entries(s) == e
      invariant 1 <= g <= |s| && pos == (if g < |s| then s[g] else s[0])
      invariant forall i: nat :: i < g - 1 ==> cmp(newe.entry, e[i]) > 0
      decreases |s| - g
    {
      Links(s, g - 1);
      Links(s, g);
      assert pos.entry == e[g - 1];
      var res := cmp(newe.entry, pos.entry);
      if res < 0 {
        ListAddBetween(newe, pos.prev, pos, s, g - 1);
        EntriesInserted(s, g - 1, newe);
        SameEntries(s);
        return false;
      } else if res == 0 {
        return true;
      }
      pos := pos.next;
      g := g + 1;
    }
    if g < |s| { Links(s, g); assert false; }
    ListAddTail(newe, head, s);
    InsertedEnd(s, newe);
    EntriesInserted(s, |s| - 1, newe);
    SameEntries(s);
    return false;
  }
}
