/** Circular doubly linked lists with a head node, as in list_head of the kernel and of libusbx. A pointer is an
    index into the memory of links; the primitives assign single `next` and `prev` fields in the source's order.
    Nothing here knows which list a node is in: `Window` and `Path` say what following the links finds. */
module LinkedList {

  type Ptr = nat

  datatype Links = Links(next: seq<Ptr>, prev: seq<Ptr>) {

    predicate Has(p: Ptr) {
      p < |next| == |prev|
    }

    function SetNext(p: Ptr, q: Ptr): Links
      requires Has(p)
    {
      Links(next[p := q], prev)
    }

    function SetPrev(p: Ptr, q: Ptr): Links
      requires Has(p)
    {
      Links(next, prev[p := q])
    }
  }

  function ListInit(l: Links, entry: Ptr): Links
    requires l.Has(entry)
  {
    l.SetNext(entry, entry).SetPrev(entry, entry)
  }

  /** list_add(entry, head): the new node goes in just after `head`. */
  function ListAdd(l: Links, entry: Ptr, head: Ptr): Links
    requires l.Has(entry) && l.Has(head) && l.Has(l.next[head])
  {
    var l1 := l.SetNext(entry, l.next[head]).SetPrev(entry, head);
    l1.SetPrev(l1.next[head], entry).SetNext(head, entry)
  }

  /** list_add_tail(entry, at): the new node goes in just before `at`, a list's head or any of its members. */
  function ListAddTail(l: Links, entry: Ptr, at: Ptr): Links
    requires l.Has(entry) && l.Has(at) && l.Has(l.prev[at])
    requires entry != at
  {
    var l1 := l.SetNext(entry, at).SetPrev(entry, l.prev[at]);
    l1.SetNext(l1.prev[at], entry).SetPrev(at, entry)
  }

  /** list_del(entry): its neighbours are linked to each other; what becomes of its own links is up to the caller. */
  function ListDel(l: Links, entry: Ptr): Links
    requires l.Has(entry) && l.Has(l.next[entry]) && l.Has(l.prev[entry])
  {
    var l1 := l.SetPrev(l.next[entry], l.prev[entry]);
    l1.SetNext(l1.prev[entry], l1.next[entry])
  }

  /** The list headed by `head` is s[lo..hi], front to back, linked in both directions. */
  predicate Window(l: Links, head: Ptr, s: seq<Ptr>, lo: nat, hi: nat) {
    && lo <= hi <= |s| && l.Has(head)
    && (forall i :: lo <= i < hi ==> l.Has(s[i]) && s[i] != head)
    && l.next[head] == (if lo == hi then head else s[lo])
    && l.prev[head] == (if lo == hi then head else s[hi - 1])
    && (lo < hi ==> l.prev[s[lo]] == head && l.next[s[hi - 1]] == head)
    && (forall i {:trigger l.next[s[i]]} :: lo <= i < hi - 1 ==> l.next[s[i]] == s[i + 1])
    && (forall i {:trigger l.prev[s[i]]} :: lo < i < hi ==> l.prev[s[i]] == s[i - 1])
  }

  lemma WindowFirst(l: Links, head: Ptr, s: seq<Ptr>, lo: nat, hi: nat)
    requires Window(l, head, s, lo, hi)
    ensures l.Has(head) && l.next[head] == if lo == hi then head else s[lo]
  {
  }

  predicate Ring(l: Links, head: Ptr, s: seq<Ptr>) {
    Window(l, head, s, 0, |s|)
  }

  /** The forward links alone lead through s[lo..hi] to `end`. */
  predicate Path(l: Links, s: seq<Ptr>, lo: nat, hi: nat, end: Ptr) {
    && lo <= hi <= |s|
    && (forall i :: lo <= i < hi ==> l.Has(s[i]) && s[i] != end)
    && (lo < hi ==> l.next[s[hi - 1]] == end)
    && (forall i {:trigger l.next[s[i]]} :: lo <= i < hi - 1 ==> l.next[s[i]] == s[i + 1])
  }

  /** No node comes twice: otherwise following the links would never reach the end. */
  lemma {:induction false} PathDistinct(l: Links, s: seq<Ptr>, lo: nat, hi: nat, end: Ptr, i: nat, j: nat)
    requires Path(l, s, lo, hi, end) && lo <= i < j < hi
    ensures s[i] != s[j]
    decreases hi - j
  {
    assert l.next[s[i]] == s[i + 1];
    if j + 1 < hi {
      PathDistinct(l, s, lo, hi, end, i + 1, j + 1);
    }
  }

  lemma WindowDistinct(l: Links, head: Ptr, s: seq<Ptr>, lo: nat, hi: nat)
    requires Window(l, head, s, lo, hi)
    ensures Path(l, s, lo, hi, head)
    ensures forall i, j :: lo <= i < j < hi ==> s[i] != s[j]
  {
    forall i, j | lo <= i < j < hi
      ensures s[i] != s[j]
    {
      PathDistinct(l, s, lo, hi, head, i, j);
    }
  }

  /** A window's nodes differ from any one of them elsewhere in it. */
  lemma OnlyAt(l: Links, head: Ptr, s: seq<Ptr>, lo: nat, hi: nat, i: nat)
    requires Window(l, head, s, lo, hi) && lo <= i < hi
    ensures forall k :: lo <= k < hi && k != i ==> s[k] != s[i]
  {
    WindowDistinct(l, head, s, lo, hi);
  }

  /** The node at position i, the head standing behind the last. */
  function At(s: seq<Ptr>, head: Ptr, i: nat): Ptr
    requires i <= |s|
  {
    if i == |s| then head else s[i]
  }

  /** What list_add_tail does to the memory, whatever lists there are. */
  predicate Inserted(l: Links, l': Links, entry: Ptr, at: Ptr)
    requires l.Has(entry) && l.Has(at)
  {
    && |l'.next| == |l.next| && |l'.prev| == |l.prev| && l.Has(l.prev[at])
    && l'.next[entry] == at && l'.prev[entry] == l.prev[at]
    && l'.next[l.prev[at]] == entry && l'.prev[at] == entry
    && (forall p {:trigger l'.next[p]} :: 0 <= p < |l.next| && p != entry && p != l.prev[at] ==> l'.next[p] == l.next[p])
    && (forall p {:trigger l'.prev[p]} :: 0 <= p < |l.prev| && p != entry && p != at ==> l'.prev[p] == l.prev[p])
  }

  /** What list_del does to the memory. */
  predicate Deleted(l: Links, l': Links, entry: Ptr)
    requires l.Has(entry)
  {
    && |l'.next| == |l.next| && |l'.prev| == |l.prev| && l.Has(l.prev[entry]) && l.Has(l.next[entry])
    && l'.next[l.prev[entry]] == l.next[entry] && l'.prev[l.next[entry]] == l.prev[entry]
    && (forall p {:trigger l'.next[p]} :: 0 <= p < |l.next| && p != l.prev[entry] ==> l'.next[p] == l.next[p])
    && (forall p {:trigger l'.prev[p]} :: 0 <= p < |l.prev| && p != l.next[entry] ==> l'.prev[p] == l.prev[p])
  }

  lemma AddTailFields(l: Links, entry: Ptr, at: Ptr)
    requires l.Has(entry) && l.Has(at) && l.Has(l.prev[at]) && entry != at && l.prev[at] != entry
    ensures Inserted(l, ListAddTail(l, entry, at), entry, at)
  {
  }

  /** list_add after `head` does what list_add_tail before its successor does. */
  lemma AddFields(l: Links, entry: Ptr, head: Ptr)
    requires l.Has(entry) && l.Has(head) && l.Has(l.next[head]) && l.prev[l.next[head]] == head
    requires entry != head && l.next[head] != entry
    ensures Inserted(l, ListAdd(l, entry, head), entry, l.next[head])
  {
  }

  lemma DelFields(l: Links, entry: Ptr)
    requires l.Has(entry) && l.Has(l.next[entry]) && l.Has(l.prev[entry])
    requires l.next[entry] != entry && l.prev[entry] != entry
    ensures Deleted(l, ListDel(l, entry), entry)
  {
  }

  /** `t` is `s` with `x` at position i. */
  predicate IsInsert(s: seq<Ptr>, i: nat, x: Ptr, t: seq<Ptr>) {
    && i <= |s| && |t| == |s| + 1 && t[i] == x
    && (forall k :: 0 <= k < i ==> t[k] == s[k])
    && (forall k :: i < k <= |s| ==> t[k] == s[k - 1])
  }

  lemma InsertedRing(l: Links, l': Links, entry: Ptr, head: Ptr, s: seq<Ptr>, i: nat, t: seq<Ptr>)
    requires Ring(l, head, s) && l.Has(entry) && entry !in s && entry != head && IsInsert(s, i, entry, t)
    requires l.Has(At(s, head, i)) && Inserted(l, l', entry, At(s, head, i))
    ensures Ring(l', head, t)
  {
    if i < |s| { OnlyAt(l, head, s, 0, |s|, i); }
    if i > 0 { OnlyAt(l, head, s, 0, |s|, i - 1); }
  }

  /** `t` is `s` without position i. */
  predicate IsRemove(s: seq<Ptr>, i: nat, t: seq<Ptr>) {
    && i < |s| && |t| == |s| - 1
    && (forall k :: 0 <= k < i ==> t[k] == s[k])
    && (forall k :: i <= k < |t| ==> t[k] == s[k + 1])
  }

  lemma DeletedRing(l: Links, l': Links, head: Ptr, s: seq<Ptr>, i: nat, t: seq<Ptr>)
    requires Ring(l, head, s) && IsRemove(s, i, t) && Deleted(l, l', s[i])
    ensures Ring(l', head, t)
  {
    OnlyAt(l, head, s, 0, |s|, i);
    if i + 1 < |s| { OnlyAt(l, head, s, 0, |s|, i + 1); }
    if i > 0 { OnlyAt(l, head, s, 0, |s|, i - 1); }
  }

  /** Appending a node that is not in the list, whatever its own links say. */
  lemma AppendedWindow(l: Links, l': Links, head: Ptr, s: seq<Ptr>, lo: nat, hi: nat, entry: Ptr, t: seq<Ptr>)
    requires Window(l, head, s, lo, hi) && l.Has(entry) && entry != head
    requires forall i :: lo <= i < hi ==> s[i] != entry
    requires Inserted(l, l', entry, head)
    requires hi < |t| && t[hi] == entry && forall i :: lo <= i < hi ==> t[i] == s[i]
    ensures Window(l', head, t, lo, hi + 1)
  {
    if lo < hi { OnlyAt(l, head, s, lo, hi, hi - 1); }
  }

  /** Unlinking the first node of a list. */
  lemma DeletedFirst(l: Links, l': Links, head: Ptr, s: seq<Ptr>, lo: nat, hi: nat)
    requires Window(l, head, s, lo, hi) && lo < hi && Deleted(l, l', s[lo])
    ensures Window(l', head, s, lo + 1, hi)
  {
    OnlyAt(l, head, s, lo, hi, lo);
    if lo + 1 < hi { OnlyAt(l, head, s, lo, hi, lo + 1); }
  }

  /** A list is left as it is by writes that miss its head and its nodes. */
  lemma Untouched(l: Links, l': Links, head: Ptr, s: seq<Ptr>, lo: nat, hi: nat)
    requires Window(l, head, s, lo, hi) && |l'.next| == |l.next| && |l'.prev| == |l.prev|
    requires l'.next[head] == l.next[head] && l'.prev[head] == l.prev[head]
    requires forall i :: lo <= i < hi ==> l'.next[s[i]] == l.next[s[i]] && l'.prev[s[i]] == l.prev[s[i]]
    ensures Window(l', head, s, lo, hi)
  {
  }

  /** Two lists that share no node and no head. */
  predicate Apart(head: Ptr, s: seq<Ptr>, lo: nat, hi: nat, head2: Ptr, t: seq<Ptr>, lo2: nat, hi2: nat)
    requires lo <= hi <= |s| && lo2 <= hi2 <= |t|
  {
    && head != head2
    && (forall i :: lo <= i < hi ==> s[i] != head2)
    && (forall j :: lo2 <= j < hi2 ==> t[j] != head)
    && (forall i, j :: lo <= i < hi && lo2 <= j < hi2 ==> s[i] != t[j])
  }

  /** The part of a sequence already moved and the part still to move are apart. */
  lemma SplitApart(s: seq<Ptr>, lo: nat, k: nat, from: Ptr, to: Ptr)
    requires lo <= k < |s| && from != to
    requires forall i {:trigger s[i]} :: lo <= i < |s| ==> s[i] != from && s[i] != to
    requires forall i, j :: lo <= i < j < |s| ==> s[i] != s[j]
    ensures Apart(from, s, k, |s|, to, s, lo, k)
    ensures Apart(to, s, lo, k + 1, from, s, k + 1, |s|)
    ensures forall i :: lo <= i < k ==> s[i] != s[k]
  {
  }

  /** list_add_tail onto a list, for a node outside it: whatever the node's own links say, it becomes the last,
      and the forward links of all but it, the head and the former last node stay. */
  lemma AppendAnywhere(l: Links, node: Ptr, head: Ptr, s: seq<Ptr>, lo: nat)
    requires Window(l, head, s, lo, |s|) && l.Has(node) && node != head
    requires forall i {:trigger s[i]} :: lo <= i < |s| ==> s[i] != node
    ensures l.Has(head) && l.Has(l.prev[head])
    ensures l.prev[head] == head || (lo < |s| && l.prev[head] == s[|s| - 1])
    ensures var l' := ListAddTail(l, node, head);
            && |l'.next| == |l.next| && |l'.prev| == |l.prev|
            && Window(l', head, s + [node], lo, |s| + 1)
            && (forall p {:trigger l'.next[p]} :: 0 <= p < |l.next| && p != node && p != l.prev[head] ==>
                  l'.next[p] == l.next[p])
  {
    AddTailFields(l, node, head);
    AppendedWindow(l, ListAddTail(l, node, head), head, s, lo, |s|, node, s + [node]);
  }

  /** A freshly initialized head leads to nothing; another list is left alone. */
  lemma InitEmpty(l: Links, entry: Ptr, s: seq<Ptr>, lo: nat, head2: Ptr, t: seq<Ptr>, lo2: nat, hi2: nat)
    requires l.Has(entry) && lo <= |s| && Window(l, head2, t, lo2, hi2)
    requires entry != head2 && forall i :: lo2 <= i < hi2 ==> t[i] != entry
    ensures var l' := ListInit(l, entry);
            && |l'.next| == |l.next| && |l'.prev| == |l.prev|
            && Window(l', entry, s, lo, lo) && Window(l', head2, t, lo2, hi2)
  {
    Untouched(l, ListInit(l, entry), head2, t, lo2, hi2);
  }

  /** list_del_init(node) */
  function ListDelInit(l: Links, node: Ptr): Links
    requires l.Has(node) && l.Has(l.next[node]) && l.Has(l.prev[node])
  {
    ListInit(ListDel(l, node), node)
  }

  /** Taking the first node off one list leaves another list alone. */
  lemma TakeFirst(l: Links, head: Ptr, s: seq<Ptr>, lo: nat, hi: nat, head2: Ptr, t: seq<Ptr>, lo2: nat, hi2: nat)
    requires Window(l, head, s, lo, hi) && lo < hi && Window(l, head2, t, lo2, hi2)
    requires Apart(head, s, lo, hi, head2, t, lo2, hi2)
    ensures l.next[head] == s[lo] && l.Has(s[lo]) && l.Has(l.next[s[lo]]) && l.Has(l.prev[s[lo]])
    ensures var l' := ListDelInit(l, s[lo]);
            && |l'.next| == |l.next| && |l'.prev| == |l.prev|
            && Window(l', head, s, lo + 1, hi) && Window(l', head2, t, lo2, hi2)
  {
    OnlyAt(l, head, s, lo, hi, lo);
    DelFields(l, s[lo]);
    var l1 := ListDel(l, s[lo]);
    DeletedFirst(l, l1, head, s, lo, hi);
    Untouched(l, l1, head2, t, lo2, hi2);
    Untouched(l1, ListInit(l1, s[lo]), head, s, lo + 1, hi);
    Untouched(l1, ListInit(l1, s[lo]), head2, t, lo2, hi2);
  }

  /** list_add_tail onto one list, for a node in neither, leaves another list alone. */
  lemma PutLast(l: Links, node: Ptr, head: Ptr, s: seq<Ptr>, lo: nat, hi: nat,
                head2: Ptr, t: seq<Ptr>, lo2: nat, hi2: nat)
    requires Window(l, head, s, lo, hi) && hi < |s| && s[hi] == node && Window(l, head2, t, lo2, hi2)
    requires l.Has(node) && Apart(head, s, lo, hi + 1, head2, t, lo2, hi2)
    requires node != head && forall i :: lo <= i < hi ==> s[i] != node
    ensures l.Has(head) && l.Has(l.prev[head])
    ensures var l' := ListAddTail(l, node, head);
            && |l'.next| == |l.next| && |l'.prev| == |l.prev|
            && Window(l', head, s, lo, hi + 1) && Window(l', head2, t, lo2, hi2)
  {
    AddTailFields(l, node, head);
    var l' := ListAddTail(l, node, head);
    AppendedWindow(l, l', head, s, lo, hi, node, s);
    Untouched(l, l', head2, t, lo2, hi2);
  }
}
