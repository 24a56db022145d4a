/** The intrusive doubly linked list: nodes linked in a circle through the list head. */
module LinkedList {

  class Node {
    var prev: Node?
    var next: Node?

    constructor ()
      ensures !InList()
    {
      prev, next := null, null;
    }

    predicate InList()
      reads this
    {
      !(prev == null && next == null)
    }
  }

  // ---------- the circle ----------

  /** The nodes of the circle by place: place 0 and the place after the last node are the list head. */
  function At(list: Node, s: seq<Node>, i: int): Node
    requires 0 <= i <= |s| + 1
  {
    if i == 0 || i == |s| + 1 then list else s[i - 1]
  }

  ghost predicate Joined(list: Node, s: seq<Node>, i: int)
    requires 0 <= i <= |s|
    reads list, s
  {
    && At(list, s, i).next == At(list, s, i + 1)
    && At(list, s, i + 1).prev == At(list, s, i)
  }

  ghost predicate Distinct(list: Node, s: seq<Node>) {
    && list !in s
    && (forall i, j :: 0 <= i < j < |s| ==> s[i] != s[j])
  }

  /** `s` is the content of the list: neighbours refer to each other, all around the circle. */
  ghost predicate IsList(list: Node, s: seq<Node>)
    reads list, s
  {
    && Distinct(list, s)
    && (forall i :: 0 <= i <= |s| ==> Joined(list, s, i))
  }

  /** The places of a circle hold different nodes, except that the head stands at both ends. */
  lemma Places(list: Node, s: seq<Node>)
    requires Distinct(list, s)
    ensures forall i, j :: 0 <= i <= |s| && 0 <= j <= |s| && At(list, s, i) == At(list, s, j) ==> i == j
  {
  }

  function Inserted(s: seq<Node>, k: int, item: Node): seq<Node>
    requires 0 <= k <= |s|
  {
    s[..k] + [item] + s[k..]
  }

  function Removed(s: seq<Node>, k: int): seq<Node>
    requires 0 <= k < |s|
  {
    s[..k] + s[k + 1..]
  }

  lemma InsertedAt(list: Node, s: seq<Node>, k: int, item: Node)
    requires 0 <= k <= |s| && Distinct(list, s) && item != list && item !in s
    ensures var t := Inserted(s, k, item);
            && |t| == |s| + 1
            && Distinct(list, t)
            && (forall i :: 0 <= i <= |s| + 2 ==>
                  At(list, t, i) == if i <= k then At(list, s, i)
                                    else if i == k + 1 then item else At(list, s, i - 1))
  {
    var t := Inserted(s, k, item);
    assert forall i :: 0 <= i < |t| ==> t[i] == if i < k then s[i] else if i == k then item else s[i - 1];
  }

  lemma RemovedAt(list: Node, s: seq<Node>, k: int)
    requires 0 <= k < |s| && Distinct(list, s)
    ensures var t := Removed(s, k);
            && |t| == |s| - 1
            && Distinct(list, t)
            && (forall i :: 0 <= i <= |s| ==>
                  At(list, t, i) == if i <= k then At(list, s, i) else At(list, s, i + 1))
            && (forall n :: n in s && n != s[k] <==> n in t)
  {
    var t := Removed(s, k);
    assert forall i :: 0 <= i < |t| ==> t[i] == if i < k then s[i] else s[i + 1];
    forall i | 0 <= i < |s| && i != k ensures s[i] in t {
      assert s[i] == t[if i < k then i else i - 1];
    }
  }

  // ---------- the operations ----------

  method Initialize(list: Node)
    modifies list
    ensures IsList(list, [])
  {
    list.next := list;
    list.prev := list;
  }

  /** Inserts `item` after `entry`, which is place `k` of the circle: the list head for k == 0. */
  method AddHead(entry: Node, item: Node, ghost list: Node, ghost s: seq<Node>, ghost k: nat)
    requires IsList(list, s) && k <= |s| && entry == At(list, s, k)
    requires item != list && item !in s
    modifies list, s, item
    ensures IsList(list, Inserted(s, k, item))
  {
    Places(list, s);
    InsertedAt(list, s, k, item);
    assert Joined(list, s, k);
    item.next := entry.next;
    item.prev := entry;
    entry.next.prev := item;
    entry.next := item;
    forall i | 0 <= i <= |s| + 1 ensures Joined(list, Inserted(s, k, item), i) {
      if i < k {
        assert old(Joined(list, s, i));
      } else if i > k + 1 {
        assert old(Joined(list, s, i - 1));
      }
    }
  }

  /** Inserts `item` before `entry`, which is place `k + 1` of the circle: the list head at the end. */
  method AddTail(entry: Node, item: Node, ghost list: Node, ghost s: seq<Node>, ghost k: nat)
    requires IsList(list, s) && k <= |s| && entry == At(list, s, k + 1)
    requires item != list && item !in s
    modifies list, s, item
    ensures IsList(list, Inserted(s, k, item))
  {
    Places(list, s);
    InsertedAt(list, s, k, item);
    assert Joined(list, s, k);
    item.prev := entry.prev;
    item.next := entry;
    entry.prev.next := item;
    entry.prev := item;
    forall i | 0 <= i <= |s| + 1 ensures Joined(list, Inserted(s, k, item), i) {
      if i < k {
        assert old(Joined(list, s, i));
      } else if i > k + 1 {
        assert old(Joined(list, s, i - 1));
      }
    }
  }

  method Delete(item: Node, ghost list: Node, ghost s: seq<Node>, ghost k: nat)
    requires IsList(list, s) && k < |s| && item == s[k]
    modifies list, s
    ensures IsList(list, Removed(s, k))
    ensures !item.InList()
    ensures forall n :: n in s && n != item <==> n in Removed(s, k)
  {
    Places(list, s);
    RemovedAt(list, s, k);
    assert At(list, s, k + 1) == item;
    assert Joined(list, s, k) && Joined(list, s, k + 1);
    item.next.prev := item.prev;
    item.prev.next := item.next;
    item.prev := null;
    item.next := null;
    forall i | 0 <= i < |s| ensures Joined(list, Removed(s, k), i) {
      if i < k {
        assert old(Joined(list, s, i));
      } else if i > k {
        assert old(Joined(list, s, i + 1));
      }
    }
  }

  method RemoveHead(list: Node, ghost s: seq<Node>) returns (item: Node?)
    requires IsList(list, s)
    modifies list, s
    ensures s == [] ==> item == null && IsList(list, s)
    ensures s != [] ==> item == s[0] && IsList(list, s[1..]) && !s[0].InList()
  {
    Ends(list, s);
    if list.next != list {
      item := list.next;
      Delete(item, list, s, 0);
      assert Removed(s, 0) == s[1..];
    } else {
      item := null;
    }
  }

  method RemoveTail(list: Node, ghost s: seq<Node>) returns (item: Node?)
    requires IsList(list, s)
    modifies list, s
    ensures s == [] ==> item == null && IsList(list, s)
    ensures s != [] ==> item == s[|s| - 1] && IsList(list, s[..|s| - 1]) && !s[|s| - 1].InList()
  {
    Ends(list, s);
    if list.prev != list {
      item := list.prev;
      Delete(item, list, s, |s| - 1);
      assert Removed(s, |s| - 1) == s[..|s| - 1];
    } else {
      item := null;
    }
  }

  /** The links of the head lead to the first and the last node; every node of a list is linked. */
  lemma Ends(list: Node, s: seq<Node>)
    requires IsList(list, s)
    ensures s == [] ==> list.next == list && list.prev == list
    ensures s != [] ==> list.next == s[0] && list.prev == s[|s| - 1] && s[0] != list && s[|s| - 1] != list
  {
    assert Joined(list, s, 0) && Joined(list, s, |s|);
  }

  /** The links of node `k` lead to its neighbours, or to the head at either end. */
  lemma Neighbours(list: Node, s: seq<Node>, k: nat)
    requires IsList(list, s) && k < |s|
    ensures s[k].next == if k + 1 < |s| then s[k + 1] else list
    ensures s[k].prev == if k > 0 then s[k - 1] else list
    ensures list !in s && s[k] != list && s[k].InList()
  {
    assert Joined(list, s, k) && Joined(list, s, k + 1);
  }

  predicate IsEmpty(list: Node)
    reads list
  {
    list.next == list
  }

  lemma EmptyMeaning(list: Node, s: seq<Node>)
    requires IsList(list, s)
    ensures IsEmpty(list) <==> s == []
  {
    Ends(list, s);
  }

  function PeekHead(list: Node): Node?
    reads list
  {
    if list.next != list then list.next else null
  }

  function PeekTail(list: Node): Node?
    reads list
  {
    if list.prev != list then list.prev else null
  }

  lemma PeekMeaning(list: Node, s: seq<Node>)
    requires IsList(list, s)
    ensures PeekHead(list) == if s == [] then null else s[0]
    ensures PeekTail(list) == if s == [] then null else s[|s| - 1]
  {
    Ends(list, s);
  }

  function Next(list: Node, item: Node): Node?
    reads item
  {
    if item.next != list then item.next else null
  }

  function Prev(list: Node, item: Node): Node?
    reads item
  {
    if item.prev != list then item.prev else null
  }

  lemma StepMeaning(list: Node, s: seq<Node>, k: nat)
    requires IsList(list, s) && k < |s|
    ensures Next(list, s[k]) == if k + 1 < |s| then s[k + 1] else null
    ensures Prev(list, s[k]) == if k > 0 then s[k - 1] else null
  {
    Neighbours(list, s, k);
  }

  function NextWrap(list: Node, item: Node): Node?
    requires item.next != null
    reads item, item.next
  {
    if item.next != list then item.next
    else if item.next.next != list then item.next.next
    else null
  }

  function PrevWrap(list: Node, item: Node): Node?
    requires item.prev != null
    reads item, item.prev
  {
    if item.prev != list then item.prev
    else if item.prev.prev != list then item.prev.prev
    else null
  }

  /** The wrapping steps go around the nodes as a cycle that leaves the head out. */
  lemma WrapMeaning(list: Node, s: seq<Node>, k: nat)
    requires IsList(list, s) && k < |s|
    ensures s[k].next != null && NextWrap(list, s[k]) == s[(k + 1) % |s|]
    ensures s[k].prev != null && PrevWrap(list, s[k]) == s[(k - 1) % |s|]
  {
    Ends(list, s);
    Neighbours(list, s, k);
    Cyclic(k, |s|);
  }

  lemma Cyclic(k: int, n: int)
    requires 0 <= k < n
    ensures (k + 1) % n == if k + 1 < n then k + 1 else 0
    ensures (k - 1) % n == if k > 0 then k - 1 else n - 1
  {
    assert k == 0 ==> k - 1 == (-1) * n + (n - 1);
  }

  /** From the head itself the wrapping steps reach the first and the last node, if there is one. */
  lemma WrapFromHead(list: Node, s: seq<Node>)
    requires IsList(list, s)
    ensures list.next != null && NextWrap(list, list) == PeekHead(list)
    ensures list.prev != null && PrevWrap(list, list) == PeekTail(list)
  {
    Ends(list, s);
  }

  // ---------- the loop that may delete the node it stands on ----------

  function Filtered(s: seq<Node>, victims: set<Node>): (r: seq<Node>)
    ensures forall n :: n in r ==> n in s && n !in victims
    ensures forall n :: n in s && n !in victims ==> n in r
  {
    if s == [] then []
    else if s[|s| - 1] in victims then Filtered(s[..|s| - 1], victims)
    else Filtered(s[..|s| - 1], victims) + [s[|s| - 1]]
  }

  /** Part-way through the walk: the first `k` nodes have been visited, those kept of them are `done`, and
      the list holds them and the nodes ahead. */
  ghost predicate Walking(list: Node, s: seq<Node>, victims: set<Node>, k: nat, done: seq<Node>, all: seq<Node>)
    reads list, s, all
  {
    && k <= |s| && done == Filtered(s[..k], victims) && all == done + s[k..]
    && list !in s && IsList(list, all)
    && (forall n :: n in s && n !in all ==> !n.InList())
  }

  /** Deletes the node, if it is to be deleted. */
  method Visit(node: Node, list: Node, victims: set<Node>, ghost s: seq<Node>, ghost k: nat,
               ghost done: seq<Node>, ghost all: seq<Node>)
    returns (ghost kept: seq<Node>, ghost left: seq<Node>)
    requires Walking(list, s, victims, k, done, all) && k < |s| && node == s[k]
    modifies list, s
    ensures Walking(list, s, victims, k + 1, kept, left)
  {
    hide IsList, Filtered, Removed, Node.InList;
    FilteredStep(s, victims, k);
    Middle(done, s, k);
    StillOriginal(all, s, victims, k);
    if node in victims {
      Delete(node, list, all, |done|);
      kept, left := done, done + s[k + 1..];
    } else {
      kept, left := done + [node], all;
    }
  }

  /**
   * Visits the nodes with the successor fetched before the body, and deletes those in `victims`.
   * The nodes already passed are `Filtered(s[..k], victims)`, and those ahead are still `s[k..]`.
   */
  method DeleteEvery(list: Node, victims: set<Node>, ghost s: seq<Node>) returns (visited: seq<Node>)
    requires IsList(list, s)
    modifies list, s
    ensures visited == s
    ensures IsList(list, Filtered(s, victims))
    ensures forall n :: n in s && n in victims ==> !n.InList()
  {
    hide Walking, Filtered, IsList, Node.InList;
    visited := [];
    ghost var k, done, all := 0, [], s;
    WalkStarts(list, s, victims);
    WalkAhead(list, s, victims, k, done, all);
    var node := list.next;
    WalkFirst(list, s);
    var temp := node.next;
    while node != list
      invariant k <= |s| && visited == s[..k] && Walking(list, s, victims, k, done, all)
      invariant node == if k < |s| then s[k] else list
      invariant k < |s| ==> s[k] != list && temp == if k + 1 < |s| then s[k + 1] else list
      decreases |s| - k
    {
      visited := visited + [node];
      done, all := Visit(node, list, victims, s, k, done, all);
      k := k + 1;
      node := temp;
      WalkAhead(list, s, victims, k, done, all);
      temp := node.next;
    }
    WalkEnds(list, s, victims, done, all);
  }

  lemma WalkStarts(list: Node, s: seq<Node>, victims: set<Node>)
    requires IsList(list, s)
    ensures Walking(list, s, victims, 0, [], s)
  {
    assert [] + s[0..] == s && s[..0] == [];
  }

  lemma WalkFirst(list: Node, s: seq<Node>)
    requires IsList(list, s)
    ensures list.next == if s != [] then s[0] else list
  {
    Ends(list, s);
  }

  lemma WalkAhead(list: Node, s: seq<Node>, victims: set<Node>, k: nat, done: seq<Node>, all: seq<Node>)
    requires Walking(list, s, victims, k, done, all)
    ensures list.next != null
    ensures k < |s| ==> s[k] != list && s[k].next == if k + 1 < |s| then s[k + 1] else list
  {
    Ahead(list, all, done, s, k);
  }

  lemma WalkEnds(list: Node, s: seq<Node>, victims: set<Node>, done: seq<Node>, all: seq<Node>)
    requires Walking(list, s, victims, |s|, done, all)
    ensures IsList(list, Filtered(s, victims)) && s[..|s|] == s
    ensures forall n :: n in s && n in victims ==> !n.InList()
  {
    Whole(done, s);
  }

  lemma Whole(done: seq<Node>, s: seq<Node>)
    ensures s[..|s|] == s && done + s[|s|..] == done
  {
  }

  lemma StillOriginal(all: seq<Node>, s: seq<Node>, victims: set<Node>, k: nat)
    requires k <= |s| && all == Filtered(s[..k], victims) + s[k..]
    ensures forall i :: 0 <= i < |all| ==> all[i] in s
  {
    forall i | 0 <= i < |all| ensures all[i] in s {
      if i < |all| - |s[k..]| {
        assert all[i] in Filtered(s[..k], victims);
      } else {
        assert all[i] in s[k..];
      }
    }
  }

  lemma FilteredStep(s: seq<Node>, victims: set<Node>, k: nat)
    requires k < |s|
    ensures s[..k + 1] == s[..k] + [s[k]]
    ensures s[k..] == [s[k]] + s[k + 1..]
    ensures Filtered(s[..k + 1], victims)
         == Filtered(s[..k], victims) + if s[k] in victims then [] else [s[k]]
  {
    assert s[..k + 1][..k] == s[..k];
  }

  lemma Middle(done: seq<Node>, s: seq<Node>, k: nat)
    requires k < |s|
    ensures done + s[k..] == done + [s[k]] + s[k + 1..]
    ensures (done + s[k..])[|done|] == s[k]
    ensures Removed(done + s[k..], |done|) == done + s[k + 1..]
  {
    assert (done + s[k..])[|done| + 1..] == s[k + 1..];
  }

  /** Where the walk goes from place `k` of the original sequence. */
  lemma Ahead(list: Node, all: seq<Node>, done: seq<Node>, s: seq<Node>, k: nat)
    requires k <= |s| && all == done + s[k..] && IsList(list, all)
    ensures k < |s| ==> s[k] != list && s[k].next == if k + 1 < |s| then s[k + 1] else list
    ensures list.next != null && list !in all
  {
    Ends(list, all);
    if k < |s| {
      Neighbours(list, all, |done|);
      assert all[|done|] == s[k];
      assert k + 1 < |s| ==> all[|done| + 1] == s[k + 1];
    }
  }
}
