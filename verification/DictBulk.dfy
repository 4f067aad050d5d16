/** Loading a dictionary from nodes that come in order of their keys. */
module DictBulk {
  import opened DictTree
  import opened DictBalance
  import opened DictOrder
  import opened DictRows
  import opened DictLoad
  import D = Dict

  function LastOr(nodes: seq<DNode>, none: DNode): DNode { if nodes == [] then none else nodes[|nodes| - 1] }

  ghost function NodeSet(nodes: seq<DNode>): set<DNode> { set x | x in nodes }

  /** A new node behind the last one of the list. */
  lemma {:induction false} ListAppend(m: Mem, m': Mem, curr: DNode?, rest: seq<DNode>, end: DNode, n: DNode)
    requires ListFrom(m, curr, rest, end) && n !in rest && end !in rest && n in m' && m'[n].left == end
    requires forall i, j :: 0 <= i < j < |rest| ==> rest[i] != rest[j]
    requires forall i :: 0 <= i < |rest| && rest[i] in m ==>
      rest[i] in m' && m'[rest[i]].left == if i == |rest| - 1 then n else m[rest[i]].left
    ensures ListFrom(m', if rest == [] then n else curr, rest + [n], end)
    decreases |rest|
  {
    if rest == [] {
      assert ListFrom(m', end, [], end);
      assert ([n])[1..] == [];
    } else {
      var tail := rest[1..];
      assert forall i :: 0 <= i < |tail| ==> tail[i] == rest[i + 1];
      ListAppend(m, m', m[rest[0]].left, tail, end, n);
      assert (rest + [n])[1..] == tail + [n];
    }
  }

  /** The keys of the nodes are in order. */
  ghost predicate Keyed(nodes: seq<DNode>, kt: KeyTable, dupes: bool)
    reads NodeSet(nodes)`key
  {
    (forall x :: x in nodes ==> x in kt && x.key == kt[x]) && Ordered(KeySeq(nodes, kt), dupes)
  }

  class Loader {
    const dict: D.Dict
    /** The list of the nodes loaded begins and ends at this sentinel. */
    const nilnode: DNode
    ghost var nodes: seq<DNode>
    ghost var keyOf: KeyTable

    ghost function Repr(): set<DNode>
      reads this
    {
      NodeSet(nodes) + {dict.nil, nilnode}
    }

    ghost predicate Valid()
      reads this, dict, Repr()
    {
      && dict.tree == Leaf && dict.nodecount == |nodes| <= dict.maxcount <= Pow2(DEPTH) - 1
      && Listed(Repr(), nodes) && Keyed(nodes, keyOf, dict.dupes)
    }

    /** The list holds the nodes. */
    ghost predicate Listed(s: set<DNode>, nodes: seq<DNode>)
      reads s, nilnode
    {
      && dict.nil in s && nilnode in s && dict.nil != nilnode && ListReady(s, dict.nil, nilnode, nodes)
      && ListFrom(Snap(s), nilnode.left, nodes, nilnode) && nilnode.right == LastOr(nodes, nilnode)
    }

    /** dict_load_begin, on an empty dictionary. */
    constructor (dict: D.Dict)
      requires dict.Valid() && dict.Contents() == [] && dict.maxcount <= Pow2(DEPTH) - 1
      ensures this.dict == dict && Valid() && nodes == [] && fresh(nilnode)
    {
      this.dict, nodes, keyOf := dict, [], map[];
      nilnode := new DNode(0);
      new;
      nilnode.left, nilnode.right := nilnode, nilnode;
    }

    /** load_begin_internal: the tree that the dictionary may hold is given up. */
    constructor Internal(dict: D.Dict)
      requires dict.tree == Leaf && dict.nodecount == 0 && dict.maxcount <= Pow2(DEPTH) - 1
      ensures this.dict == dict && Valid() && nodes == [] && keyOf == map[] && fresh(nilnode)
    {
      this.dict, nodes, keyOf := dict, [], map[];
      nilnode := new DNode(0);
      new;
      nilnode.left, nilnode.right := nilnode, nilnode;
    }

    /** dict_load_next */
    method LoadNext(newnode: DNode, key: int)
      requires Valid() && newnode !in Repr() && dict.nodecount < dict.maxcount
      requires |nodes| > 0 ==> if dict.dupes then nodes[|nodes| - 1].key <= key else nodes[|nodes| - 1].key < key
      modifies this, dict`nodecount, Repr()`left, nilnode`right, newnode`key, newnode`left
      ensures Valid() && nodes == old(nodes) + [newnode]
        && KeySeq(nodes, keyOf) == KeySeq(old(nodes), old(keyOf)) + [key]
      ensures newnode.key == key
    {
      hide Keyed, KeySeq, Listed, Pow2;
      ghost var was, kt, s := nodes, keyOf, Repr();
      SetKey(newnode, key);
      LinkLast(newnode, s);
      dict.nodecount := dict.nodecount + 1;
      nodes, keyOf := was + [newnode], kt[newnode := key];
      assert Repr() == s + {newnode};
    }

    method SetKey(newnode: DNode, key: int)
      requires Keyed(nodes, keyOf, dict.dupes) && newnode !in nodes
      requires |nodes| > 0 ==> if dict.dupes then nodes[|nodes| - 1].key <= key else nodes[|nodes| - 1].key < key
      modifies newnode`key
      ensures Keyed(nodes + [newnode], keyOf[newnode := key], dict.dupes)
      ensures KeySeq(nodes + [newnode], keyOf[newnode := key]) == KeySeq(nodes, keyOf) + [key] && newnode.key == key
    {
      hide Ordered, KeySeq;
      KeysAppend(nodes, keyOf, newnode, key, dict.dupes);
      newnode.key := key;
    }

    method LinkLast(newnode: DNode, ghost s: set<DNode>)
      requires Listed(s, nodes) && newnode !in s
      modifies s`left, nilnode`right, newnode`left
      ensures Listed(s + {newnode}, nodes + [newnode])
    {
      ghost var m := Snap(s);
      var last: DNode := nilnode.right;
      last.left := newnode;
      nilnode.right := newnode;
      newnode.left := nilnode;
      assert nilnode !in nodes && newnode !in nodes;
      ListAppend(m, Snap(s + {newnode}), m[nilnode].left, nodes, nilnode, newnode);
      ReadyMore(s, dict.nil, nilnode, nodes, newnode);
    }

    /** dict_load_end: the dictionary holds the nodes loaded, in order. */
    method LoadEnd()
      requires Valid()
      modifies dict, Repr()`left, Repr()`right, Repr()`parent, Repr()`color
      ensures dict.Valid() && dict.Contents() == nodes && dict.Keys() == KeySeq(nodes, keyOf)
      ensures dict.nodecount == old(dict.nodecount) && dict.maxcount == old(dict.maxcount)
    {
      hide At, RedBlack, Ordered, Listed, Pow2, Inorder, Nodes, KeySeq, Snap;
      ghost var all := BuildTree(Repr());
      dict.tree, dict.keyOf := all, keyOf;
      assert Keyed(nodes, keyOf, dict.dupes);
    }

    method BuildTree(ghost s: set<DNode>) returns (ghost all: Tree)
      requires Listed(s, nodes) && dict.nodecount == |nodes| <= Pow2(DEPTH) - 1
      modifies s`left, s`right, s`parent, s`color
      ensures At(Snap(Nodes(all) + {dict.nil}), dict.nil, Top, all) && RedBlack(all) && dict.nil.color == Black
      ensures Inorder(all) == nodes && Nodes(all) == NodeSet(nodes)
    {
      hide At, RedBlack, ListFrom, Pow2, Inorder, Nodes;
      all := DictLoad.LoadEnd(dict.nil, nilnode, dict.nodecount, nodes, s);
      AllLoaded(all, nodes);
      AtSmaller(Snap(s), Snap(Nodes(all) + {dict.nil}), dict.nil, all);
    }
  }

  lemma AllLoaded(all: Tree, nodes: seq<DNode>)
    requires Inorder(all) == nodes
    ensures Nodes(all) == NodeSet(nodes)
  {
    InorderNodes(all);
    forall x | x in NodeSet(nodes) ensures x in Nodes(all) {
      var i :| 0 <= i < |nodes| && nodes[i] == x;
    }
  }

  lemma ReadyMore(s: set<DNode>, nil: DNode, loadnil: DNode, nodes: seq<DNode>, n: DNode)
    requires ListReady(s, nil, loadnil, nodes) && n !in s && nil in s && loadnil in s
    ensures ListReady(s + {n}, nil, loadnil, nodes + [n])
  {
  }

  lemma AtSmaller(m: Mem, m': Mem, nil: DNode, t: Tree)
    requires At(m, nil, Top, t) && nil in m' && nil in m && m'[nil] == m[nil] && Nodes(t) <= m'.Keys
    requires forall x :: x in m && x in m' ==> m'[x] == m[x]
    ensures At(m', nil, Top, t)
  {
    D.AtFrame(m, m', nil, Top, t);
  }

  lemma KeysAppend(nodes: seq<DNode>, kt: KeyTable, n: DNode, key: int, dupes: bool)
    requires n !in nodes && Ordered(KeySeq(nodes, kt), dupes) && (forall x :: x in nodes ==> x in kt)
    ensures KeySeq(nodes + [n], kt[n := key]) == KeySeq(nodes, kt) + [key]
    ensures |nodes| > 0 ==> nodes[|nodes| - 1] in kt
    ensures (|nodes| > 0 ==> if dupes then kt[nodes[|nodes| - 1]] <= key else kt[nodes[|nodes| - 1]] < key) ==>
      Ordered(KeySeq(nodes + [n], kt[n := key]), dupes)
  {
    var ks := KeySeq(nodes, kt);
    forall i | 0 <= i < |nodes| ensures nodes[i] != n && nodes[i] in kt { assert nodes[i] in nodes; }
    assert KeySeq(nodes + [n], kt[n := key]) == ks + [key];
  }
}
