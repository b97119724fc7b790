/** The recency list of the main window as the source keeps it: the
    LinkedList<string> `_lru`, whose nodes each have an identity of their
    own, and the Dictionary `_lruNodes` from a tab id to its node.
    LinkedList.Remove(node) throws InvalidOperationException when the node
    does not belong to the list; RemoveFirst detaches the first node, and
    AddLast(value) makes a new node.  The main window keeps only the ids
    along the list and the keys of the index; the lemmas here show that
    this is exact as long as every index entry names its node in the list
    (Linked), which the corrected rotation preserves and the rotation as
    written breaks. */
module Nodes {
  import opened Wrappers
  import opened Seqs
  import Lru

  /** A LinkedListNode<string>: its identity and the tab id it holds. */
  datatype Node = Node(token: nat, id: string)

  /** `_lru` (oldest first), `_lruNodes`, and the next unused identity. */
  datatype Links = Links(order: seq<Node>, index: map<string, Node>, next: nat)

  /** The tab ids along the list. */
  function Ids(order: seq<Node>): (r: seq<string>)
    ensures |r| == |order|
  {
    seq(|order|, i requires 0 <= i < |order| => order[i].id)
  }

  /** Every index entry names the node that holds its id in the list, each
      id is listed once, and every listed id is indexed. */
  predicate Linked(l: Links) {
    && Distinct(Ids(l.order))
    && l.index.Keys == Elems(Ids(l.order))
    && (forall id :: id in l.index ==> l.index[id] in l.order && l.index[id].id == id)
    && (forall i :: 0 <= i < |l.order| ==> l.order[i].token < l.next)
  }

  /** `_lru.Remove(node)`: None when the node is not in the list (the
      InvalidOperationException). */
  function RemoveNode(order: seq<Node>, n: Node): (r: Option<seq<Node>>)
    ensures r.Some? <==> n in order
    ensures r.Some? ==> Elems(r.value) == Elems(order) - {n}
  {
    if n in order then Some(Without(order, n)) else None
  }

  /** MarkWebViewUsed: a listed id's node is unlinked and linked again at
      the end; a new id gets a new node at the end and an index entry.
      None when `_lru.Remove(node)` throws. */
  function MarkUsed(l: Links, id: string): (r: Option<Links>)
    ensures id !in l.index ==> r.Some?
    ensures r.None? <==> id in l.index && l.index[id] !in l.order
  {
    if id in l.index then
      var n := l.index[id];
      match RemoveNode(l.order, n)
      case None => None
      case Some(rest) => Some(Links(rest + [n], l.index, l.next))
    else
      var n := Node(l.next, id);
      Some(Links(l.order + [n], l.index[id := n], l.next + 1))
  }

  /** The rotation of the eviction loop as written: RemoveFirst, then
      AddLast of the same id, which makes a new node; the index keeps the
      detached one. */
  function RotateAsWritten(l: Links): (r: Links)
    requires l.order != []
    ensures r.index == l.index
  {
    var head := l.order[0];
    Links(l.order[1..] + [Node(l.next, head.id)], l.index, l.next + 1)
  }

  /** The rotation as intended: the index is pointed at the new node, as
      `_lruNodes[id] = _lru.AddLast(id)` does in MarkWebViewUsed. */
  function Rotate(l: Links): (r: Links)
    requires l.order != []
    ensures r.order == RotateAsWritten(l).order
  {
    var head := l.order[0];
    var n := Node(l.next, head.id);
    Links(l.order[1..] + [n], l.index[head.id := n], l.next + 1)
  }

  /** The eviction branch: RemoveFirst, then `_lruNodes.Remove(id)`. */
  function DropHead(l: Links): (r: Links)
    requires l.order != []
    ensures |r.order| == |l.order| - 1
  {
    Links(l.order[1..], l.index - {l.order[0].id}, l.next)
  }

  /** The recency part of dropping a disabled tab in BuildTabsFromConfig:
      an indexed id's node is removed from the list and the entry from the
      index.  None when `_lru.Remove(node)` throws. */
  function Forget(l: Links, id: string): (r: Option<Links>)
    ensures id !in l.index ==> r == Some(l)
    ensures r.None? <==> id in l.index && l.index[id] !in l.order
  {
    if id in l.index then
      match RemoveNode(l.order, l.index[id])
      case None => None
      case Some(rest) => Some(Links(rest, l.index - {id}, l.next))
    else Some(l)
  }

  lemma IdsConcat(a: seq<Node>, b: seq<Node>)
    ensures Ids(a + b) == Ids(a) + Ids(b)
  {
  }

  lemma IdsTail(order: seq<Node>)
    requires order != []
    ensures Ids(order[1..]) == Ids(order)[1..]
  {
  }

  /** The head of a list of distinct elements is not in its tail, and the
      tail is distinct. */
  lemma DistinctTail<T>(s: seq<T>)
    requires Distinct(s) && s != []
    ensures s[0] !in s[1..] && Distinct(s[1..])
    ensures Elems(s[1..]) == Elems(s) - {s[0]}
  {
    assert s == [s[0]] + s[1..];
    forall j | 0 <= j < |s[1..]| ensures s[1..][j] != s[0] {
      assert s[1..][j] == s[j + 1];
    }
    forall i, j | 0 <= i < j < |s[1..]| ensures s[1..][i] != s[1..][j] {
      assert s[1..][i] == s[i + 1] && s[1..][j] == s[j + 1];
    }
  }

  /** With ids listed once, removing a node removes its id. */
  lemma {:induction false} IdsWithout(order: seq<Node>, n: Node)
    requires Distinct(Ids(order)) && n in order
    ensures Ids(Without(order, n)) == Without(Ids(order), n.id)
  {
    var ids := Ids(order);
    IdsTail(order);
    DistinctTail(ids);
    assert ids[0] == order[0].id;
    if order[0] == n {
      assert n !in order[1..] by {
        forall j | 0 <= j < |order[1..]| ensures order[1..][j] != n {
          assert ids[1..][j] == order[1..][j].id;
        }
      }
    } else {
      var k :| 0 <= k < |order| && order[k] == n;
      assert k > 0 && ids[k] == n.id;
      assert order[1..][k - 1] == n;
      IdsWithout(order[1..], n);
      IdsConcat([order[0]], Without(order[1..], n));
      assert Ids([order[0]]) == [ids[0]];
    }
  }

  /** The empty list and index of a new window are linked. */
  lemma EmptyLinked(next: nat)
    ensures Linked(Links([], map[], next))
  {
    assert Ids([]) == [];
  }

  /** While the index is linked, MarkWebViewUsed does not throw, keeps the
      index linked, and moves the ids exactly as Lru.MarkUsed does. */
  lemma MarkUsedLinked(l: Links, id: string)
    requires Linked(l)
    ensures MarkUsed(l, id).Some?
    ensures Linked(MarkUsed(l, id).value)
    ensures Ids(MarkUsed(l, id).value.order) == Lru.MarkUsed(Ids(l.order), id)
  {
    if id in l.index {
      MarkUsedHit(l, id);
    } else {
      MarkUsedMiss(l, id);
    }
  }

  lemma MarkUsedHit(l: Links, id: string)
    requires Linked(l) && id in l.index
    ensures var n := l.index[id];
            var r := Links(Without(l.order, n) + [n], l.index, l.next);
            Linked(r) && Ids(r.order) == Lru.MarkUsed(Ids(l.order), id)
  {
    var n := l.index[id];
    var rest := Without(l.order, n);
    IdsWithout(l.order, n);
    IdsConcat(rest, [n]);
    assert Ids([n]) == [id];
    assert Ids(rest + [n]) == Lru.MarkUsed(Ids(l.order), id);
    assert id in Elems(Ids(l.order));
    HitIndex(l, id);
    HitTokens(l, id);
  }

  lemma HitIndex(l: Links, id: string)
    requires Linked(l) && id in l.index
    ensures forall k :: k in l.index ==> l.index[k] in Without(l.order, l.index[id]) + [l.index[id]]
  {
    var n := l.index[id];
    forall k | k in l.index ensures l.index[k] in Without(l.order, n) + [n] {
      if k != id {
        assert l.index[k].id != n.id;
        assert l.index[k] in Elems(Without(l.order, n));
      }
    }
  }

  lemma HitTokens(l: Links, id: string)
    requires Linked(l) && id in l.index
    ensures var o := Without(l.order, l.index[id]) + [l.index[id]];
            forall i :: 0 <= i < |o| ==> o[i].token < l.next
  {
    var n := l.index[id];
    var rest := Without(l.order, n);
    var o := rest + [n];
    forall i | 0 <= i < |o| ensures o[i].token < l.next {
      if i < |rest| {
        assert rest[i] in Elems(rest);
      }
      assert o[i] in Elems(l.order);
    }
  }

  lemma MarkUsedMiss(l: Links, id: string)
    requires Linked(l) && id !in l.index
    ensures var n := Node(l.next, id);
            var r := Links(l.order + [n], l.index[id := n], l.next + 1);
            Linked(r) && Ids(r.order) == Lru.MarkUsed(Ids(l.order), id)
  {
    var ids := Ids(l.order);
    var n := Node(l.next, id);
    var r := Links(l.order + [n], l.index[id := n], l.next + 1);
    IdsConcat(l.order, [n]);
    assert Ids([n]) == [id];
    assert Ids(r.order) == ids + [id];
    Lru.MarkUsedMovesToEnd(ids, id);
    assert Elems(ids + [id]) == Elems(ids) + {id};
  }

  /** The corrected rotation keeps the index linked and turns the ids as
      the eviction loop's rotation does. */
  lemma RotateLinked(l: Links)
    requires Linked(l) && l.order != []
    ensures Linked(Rotate(l))
    ensures Ids(Rotate(l).order) == Ids(l.order)[1..] + [Ids(l.order)[0]]
  {
    var ids := Ids(l.order);
    RotateIds(l);
    RotatedDistinct(ids);
    RotateIndex(l);
    RotateTokens(l);
    assert ids[0] in Elems(ids);
  }

  lemma RotateIds(l: Links)
    requires l.order != []
    ensures Ids(Rotate(l).order) == Ids(l.order)[1..] + [Ids(l.order)[0]]
  {
    var n := Node(l.next, l.order[0].id);
    IdsTail(l.order);
    IdsConcat(l.order[1..], [n]);
    assert Ids([n]) == [Ids(l.order)[0]];
  }

  lemma RotateTokens(l: Links)
    requires Linked(l) && l.order != []
    ensures forall i :: 0 <= i < |Rotate(l).order| ==> Rotate(l).order[i].token < Rotate(l).next
  {
    var r := Rotate(l);
    forall i | 0 <= i < |r.order| ensures r.order[i].token < r.next {
      if i < |r.order| - 1 { assert r.order[i] == l.order[i + 1]; }
    }
  }

  /** Turning a list of distinct elements keeps them distinct and the same. */
  lemma RotatedDistinct<T>(s: seq<T>)
    requires Distinct(s) && s != []
    ensures Distinct(s[1..] + [s[0]]) && Elems(s[1..] + [s[0]]) == Elems(s)
  {
    assert s == [s[0]] + s[1..];
    var t := s[1..] + [s[0]];
    forall i, j | 0 <= i < j < |t| ensures t[i] != t[j] {
      assert t[i] == s[i + 1];
      if j < |t| - 1 { assert t[j] == s[j + 1]; } else { assert t[j] == s[0]; }
    }
  }

  lemma RotateIndex(l: Links)
    requires Linked(l) && l.order != []
    ensures forall k :: k in Rotate(l).index ==> Rotate(l).index[k] in Rotate(l).order
  {
    var r := Rotate(l);
    var head := l.order[0];
    forall k | k in r.index ensures r.index[k] in r.order {
      if k != head.id {
        var m := l.index[k];
        var j :| 0 <= j < |l.order| && l.order[j] == m;
        assert j != 0 by { assert Ids(l.order)[j] == k; }
        assert r.order[j - 1] == m;
      }
    }
  }

  /** Dropping the oldest node and its entry keeps the index linked. */
  lemma DropHeadLinked(l: Links)
    requires Linked(l) && l.order != []
    ensures Linked(DropHead(l))
    ensures Ids(DropHead(l).order) == Ids(l.order)[1..]
  {
    IdsTail(l.order);
    DistinctTail(Ids(l.order));
    DropHeadIndex(l);
  }

  lemma DropHeadIndex(l: Links)
    requires Linked(l) && l.order != []
    ensures forall k :: k in DropHead(l).index ==> DropHead(l).index[k] in DropHead(l).order
  {
    var r := DropHead(l);
    forall k | k in r.index ensures r.index[k] in r.order {
      var m := l.index[k];
      var j :| 0 <= j < |l.order| && l.order[j] == m;
      assert j != 0 by { assert Ids(l.order)[j] == k; }
      assert l.order[1..][j - 1] == m;
    }
  }

  /** While the index is linked, forgetting a disabled tab does not throw,
      keeps the index linked, and takes the id out of the list. */
  lemma ForgetLinked(l: Links, id: string)
    requires Linked(l)
    ensures Forget(l, id).Some?
    ensures Linked(Forget(l, id).value)
    ensures Ids(Forget(l, id).value.order) == Without(Ids(l.order), id)
  {
    var ids := Ids(l.order);
    if id in l.index {
      var n := l.index[id];
      var r := Forget(l, id).value;
      IdsWithout(l.order, n);
      forall k | k in r.index ensures r.index[k] in r.order {
        assert l.index[k].id != n.id;
        assert l.index[k] in Elems(Without(l.order, n));
      }
      forall i | 0 <= i < |r.order| ensures r.order[i].token < r.next {
        assert r.order[i] in Elems(r.order);
        assert r.order[i] in Elems(l.order);
      }
    } else {
      assert id !in ids;
    }
  }

  /** The rotation as written orders the ids correctly but leaves the
      rotated id's index entry on the detached node: the index is no longer
      linked, and the next MarkWebViewUsed or BuildTabsFromConfig removal
      of that id throws. */
  lemma RotateAsWrittenStale(l: Links)
    requires Linked(l) && l.order != []
    ensures var r := RotateAsWritten(l);
            var id := l.order[0].id;
            && Ids(r.order) == Ids(l.order)[1..] + [Ids(l.order)[0]]
            && id in r.index && r.index[id] !in r.order
            && !Linked(r)
            && MarkUsed(r, id).None?
            && Forget(r, id).None?
  {
    var r := RotateAsWritten(l);
    var head := l.order[0];
    RotateLinked(l);
    assert head.id in Ids(l.order) by { assert Ids(l.order)[0] == head.id; }
    var stale := l.index[head.id];
    assert stale == head by {
      var j :| 0 <= j < |l.order| && l.order[j] == stale;
      assert Ids(l.order)[j] == Ids(l.order)[0];
    }
    assert stale !in r.order by {
      forall j | 0 <= j < |r.order| ensures r.order[j] != stale {
        if j < |r.order| - 1 {
          assert r.order[j] == l.order[j + 1];
          assert Ids(l.order)[j + 1] != Ids(l.order)[0];
        } else {
          assert r.order[j].token == l.next;
          assert head.token < l.next;
        }
      }
    }
  }
}
