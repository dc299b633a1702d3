/** The OID stash: a trie of nodes on the heap, whose children hang in hashed slots as doubly
    linked sibling chains (OidStash.c). `tree` says which node stands for which name. */
module OidStash {
  import opened Bytes

  const OIDSTASH_CHILDREN_SIZE := 31

  /** `lookup[ i ] % curnode->childrenSize` */
  function Slot(v: SubId, size: nat): (j: nat)
    requires size > 0
    ensures j < size && j <= v && (v < size ==> j == v)
  {
    v % size
  }

  function Up(p: ObjectId): ObjectId
    requires p != []
  {
    p[..|p| - 1]
  }

  function Last(p: ObjectId): SubId
    requires p != []
  {
    p[|p| - 1]
  }

  function Prefixes(p: ObjectId): set<ObjectId> {
    set k | 0 <= k <= |p| :: p[..k]
  }

  lemma PrefixesOfEmpty(p: ObjectId)
    ensures Prefixes(p[..0]) == {[]}
  {
    assert p[..0] == [] && Prefixes([]) == {[][..0]};
  }

  lemma PrefixesStep(p: ObjectId, i: nat)
    requires i < |p|
    ensures p[..i + 1] == p[..i] + [p[i]]
    ensures Prefixes(p[..i + 1]) == Prefixes(p[..i]) + {p[..i + 1]}
  {
    var a, b := p[..i], p[..i + 1];
    assert forall k :: 0 <= k <= i ==> a[..k] == b[..k];
    assert b[..i + 1] == b;
    forall q | q in Prefixes(b)
      ensures q in Prefixes(a) + {b}
    {
      var k :| 0 <= k <= i + 1 && q == b[..k];
      if k <= i {
        assert q == a[..k];
      }
    }
    forall q | q in Prefixes(a)
      ensures q in Prefixes(b)
    {
      var k :| 0 <= k <= i && q == a[..k];
      assert q == b[..k];
    }
  }

  class Node {
    var value: SubId
    var data: object?
    const children: array<Node?>
    var nextSibling: Node?
    var prevSibling: Node?
    var parent: Node?
    ghost const path: ObjectId
    ghost const followers: seq<Node> // the siblings behind this one; nodes only ever join in front

    /** OidStash_createSizedNode */
    constructor (childrenSize: nat, ghost path: ObjectId, ghost followers: seq<Node>)
      requires childrenSize > 0
      ensures data == null && nextSibling == null && prevSibling == null && parent == null
      ensures this.path == path && this.followers == followers
      ensures fresh(children) && children.Length == childrenSize
      ensures forall j :: 0 <= j < childrenSize ==> children[j] == null
    {
      value, data, nextSibling, prevSibling, parent := 0, null, null, null, null;
      children := new Node?[childrenSize](_ => null);
      this.path, this.followers := path, followers;
    }

    /** This node follows or is `head` in its chain. */
    ghost predicate OnChain(head: Node?) {
      head != null && (this == head || this in head.followers)
    }
  }

  /** A new node heads the chain of its slot: the slot is empty, or its first node moves back. */
  method Attach(curnode: Node, v: SubId, ghost q: ObjectId) returns (tmpp: Node)
    requires curnode.children.Length > 0
    modifies curnode.children
    modifies (if curnode.children[Slot(v, curnode.children.Length)] == null then {}
              else {curnode.children[Slot(v, curnode.children.Length)]})`prevSibling
    ensures var i := Slot(v, curnode.children.Length);
            var head := old(curnode.children[i]);
            && fresh(tmpp) && fresh(tmpp.children) && tmpp.children.Length == OIDSTASH_CHILDREN_SIZE
            && (forall j :: 0 <= j < tmpp.children.Length ==> tmpp.children[j] == null)
            && tmpp.value == v && tmpp.parent == curnode && tmpp.data == null && tmpp.path == q
            && tmpp.nextSibling == head && tmpp.prevSibling == null
            && tmpp.followers == (if head == null then [] else [head] + head.followers)
            && (head != null ==> head.prevSibling == tmpp)
            && curnode.children[..] == old(curnode.children[..])[i := tmpp]
  {
    var i := Slot(v, curnode.children.Length);
    var head := curnode.children[i];
    if head == null {
      tmpp := new Node(OIDSTASH_CHILDREN_SIZE, q, []);
      curnode.children[i] := tmpp;
      tmpp.value := v;
      tmpp.parent := curnode;
    } else {
      var loopp := new Node(OIDSTASH_CHILDREN_SIZE, q, [head] + head.followers);
      loopp.value := v;
      loopp.nextSibling := head;
      loopp.parent := curnode;
      head.prevSibling := loopp;
      curnode.children[i] := loopp;
      tmpp := loopp;
    }
  }

  /** No two nodes share their slots. */
  ghost predicate SlotsApart(tree: map<ObjectId, Node>) {
    forall p, q :: p in tree && q in tree && p != q ==> tree[p].children != tree[q].children
  }

  class Stash {
    var root: Node?
    ghost var tree: map<ObjectId, Node>
    ghost var repr: set<object>

    ghost predicate InTree(n: Node)
      reads this
    {
      n.path in tree && tree[n.path] == n
    }

    /** A child of the node at p in slot j. */
    ghost predicate IsChild(n: Node, p: ObjectId, j: nat)
      reads this
    {
      && InTree(n) && n.path != [] && Up(n.path) == p && p in tree
      && tree[p].children.Length > 0 && Slot(Last(n.path), tree[p].children.Length) == j
    }

    /** Names and nodes correspond. */
    ghost predicate Owned()
      reads this, repr
    {
      && this in repr
      && (root == null ==> tree == map[]) && (root != null ==> [] in tree && tree[[]] == root)
      && (forall p :: p in tree ==>
            && tree[p] in repr && tree[p].children in repr
            && tree[p].path == p && tree[p].children.Length > 0)
      && SlotsApart(tree)
    }

    /** Every name's parent is there, and values are last sub-identifiers. */
    ghost predicate Parented()
      reads this, repr
      requires Owned()
    {
      && (forall p {:trigger Up(p)} :: p in tree && p != [] ==>
            Up(p) in tree && tree[p].parent == tree[Up(p)] && tree[p].value == Last(p))
      && (root != null ==> root.parent == null && root.data == null)
    }

    ghost predicate Shape()
      reads this, repr
    {
      Owned() && Parented()
    }

    /** The slots of the node at p hold the heads of its children's chains. */
    ghost predicate Headed(p: ObjectId)
      reads this, repr
      requires Shape() && p in tree
    {
      var n := tree[p];
      forall j :: 0 <= j < n.children.Length && n.children[j] != null ==>
        IsChild(n.children[j], p, j) && n.children[j].prevSibling == null
    }

    /** The node at p is on the chain of its slot. */
    ghost predicate Chained(p: ObjectId)
      reads this, repr
      requires Shape() && p in tree
    {
      p != [] ==> tree[p].OnChain(tree[Up(p)].children[Slot(Last(p), tree[Up(p)].children.Length)])
    }

    /** What follows the node at p are siblings in its slot, linked both ways. */
    ghost predicate Followed(p: ObjectId)
      reads this, repr
      requires Shape() && p in tree
    {
      p != [] ==>
        var n, i := tree[p], Slot(Last(p), tree[Up(p)].children.Length);
        && (forall k :: 0 <= k < |n.followers| ==> IsChild(n.followers[k], Up(p), i))
        && (if n.followers == [] then n.nextSibling == null
            else
              && n.nextSibling == n.followers[0]
              && n.followers[0].followers == n.followers[1..]
              && n.followers[0].prevSibling == n)
    }

    ghost predicate Linked(p: ObjectId)
      reads this, repr
      requires Shape() && p in tree
    {
      Headed(p) && Chained(p) && Followed(p)
    }

    ghost predicate Valid()
      reads this, repr
    {
      Shape() && forall p {:trigger Linked(p)} :: p in tree ==> Linked(p)
    }

    /** The map from names to data that the stash stands for. */
    ghost function Contents(): map<ObjectId, object>
      reads this, repr
      requires Valid()
    {
      map p | p in tree && tree[p].data != null :: tree[p].data
    }

    constructor ()
      ensures Valid() && fresh(repr) && tree == map[]
    {
      root, tree, repr := null, map[], {this};
    }

    lemma ValidShape()
      requires Valid()
      ensures Shape()
    {
    }

    lemma RootInTree()
      requires Valid()
      ensures if root == null then tree == map[] else [] in tree && InTree(root) && root.path == []
    {
    }

    /** One link of a chain. */
    lemma NextInChain(n: Node, p: ObjectId, j: nat)
      requires Valid() && IsChild(n, p, j)
      ensures n.value == Last(n.path) && n.path == p + [n.value]
      ensures n.nextSibling == if n.followers == [] then null else n.followers[0]
      ensures n.followers != [] ==> n.followers[0].followers == n.followers[1..] && IsChild(n.followers[0], p, j)
    {
      assert Linked(n.path);
    }

    lemma ParentOf(n: Node)
      requires Valid() && InTree(n)
      ensures n.parent == null <==> n.path == []
      ensures n.path != [] ==> n.parent.path == Up(n.path) && InTree(n.parent) && n.value == Last(n.path)
    {
      assert n.path != [] ==> Up(n.path) in tree;
    }

    lemma HeadOfSlot(curnode: Node, j: nat)
      requires Valid() && InTree(curnode) && j < curnode.children.Length
      ensures curnode in repr && curnode.children in repr && curnode.children.Length > 0
      ensures curnode.children[j] != null ==>
                IsChild(curnode.children[j], curnode.path, j) && curnode.children[j] in repr
    {
      assert Linked(curnode.path);
    }

    lemma HeadOfChain(curnode: Node, v: SubId)
      requires Valid() && InTree(curnode)
      ensures curnode in repr && curnode.children in repr && curnode.children.Length > 0
      ensures var j := Slot(v, curnode.children.Length);
              var head, q := curnode.children[j], curnode.path + [v];
              && (head != null ==> IsChild(head, curnode.path, j))
              && (q in tree ==> tree[q].value == v && tree[q].OnChain(head))
    {
      var q := curnode.path + [v];
      assert Up(q) == curnode.path && Last(q) == v;
      assert Linked(curnode.path);
      assert q in tree ==> Linked(q);
    }

    /** The chain walk: the child of `curnode` with value v. */
    method FindChild(curnode: Node, v: SubId) returns (loopp: Node?)
      requires Valid() && InTree(curnode)
      ensures loopp == if curnode.path + [v] in tree then tree[curnode.path + [v]] else null
    {
      hide *;
      ghost var p, q := curnode.path, curnode.path + [v];
      HeadOfChain(curnode, v);
      loopp := curnode.children[Slot(v, curnode.children.Length)];
      ghost var j := Slot(v, curnode.children.Length);
      while loopp != null
        invariant loopp != null ==> IsChild(loopp, p, j)
        invariant q in tree ==> tree[q].OnChain(loopp)
        decreases if loopp == null then -1 else |loopp.followers|
      {
        NextInChain(loopp, p, j);
        if loopp.value == v {
          IsChildInTree(loopp, p, j);
          return;
        }
        if q in tree {
          OnChainNext(tree[q], loopp);
        }
        loopp := loopp.nextSibling;
      }
      if q in tree {
        OnChainNotNull(tree[q], loopp);
      }
    }

    lemma IsChildInTree(n: Node, p: ObjectId, j: nat)
      requires IsChild(n, p, j)
      ensures n.path in tree && tree[n.path] == n
    {
    }


    /** What a node of the old tree keeps when `tmpp` becomes the head in front of `head` in slot i
        of `curnode`. */
    twostate predicate Kept(m: Node, curnode: Node, i: nat, head: Node?, new tmpp: Node)
      reads m, m.children
    {
      && m.value == old(m.value) && m.data == old(m.data) && m.parent == old(m.parent)
      && m.nextSibling == old(m.nextSibling)
      && m.prevSibling == (if m == head then tmpp else old(m.prevSibling))
      && (forall j :: 0 <= j < m.children.Length ==>
            m.children[j] == if m == curnode && j == i then tmpp else old(m.children[j]))
    }

    /** `tmpp` has become the child of `curnode` with value v. */
    twostate predicate Inserted(curnode: Node, v: SubId, new tmpp: Node)
      reads this, repr, tmpp
    {
      && old(Shape()) && old(InTree(curnode)) && repr == old(repr) + {tmpp, tmpp.children} && root == old(root)
      && var q, i := curnode.path + [v], Slot(v, curnode.children.Length);
      && var head := old(curnode.children[i]);
      && q !in old(tree) && tree == old(tree)[q := tmpp]
      && tmpp !in old(repr) && tmpp.children !in old(repr) && tmpp.children.Length > 0
      && tmpp.path == q && tmpp.nextSibling == head && tmpp.prevSibling == null && tmpp.value == v && tmpp.parent == curnode
      && tmpp.followers == (if head == null then [] else [head] + head.followers)
      && (forall p {:trigger old(tree)[p]} {:trigger p in old(tree)} :: p in old(tree) ==>
            Kept(old(tree)[p], curnode, i, head, tmpp))
    }

    twostate lemma KeepsOwned(curnode: Node, new v: SubId, new tmpp: Node)
      requires Inserted(curnode, v, tmpp)
      ensures Owned() && InTree(curnode)
    {
      hide Kept, Parented;
      assert forall p :: p in old(tree) ==> tree[p] == old(tree)[p];
    }

    twostate lemma KeepsParented(curnode: Node, new v: SubId, new tmpp: Node)
      requires Inserted(curnode, v, tmpp) && Owned()
      ensures Parented()
    {
      var q := curnode.path + [v];
      assert Up(q) == curnode.path && Last(q) == v;
      forall p | p in tree && p != []
        ensures Up(p) in tree && tree[p].parent == tree[Up(p)] && tree[p].value == Last(p)
      {
        if p != q {
          assert p in old(tree) && Up(p) in old(tree);
        }
      }
    }

    twostate lemma KeepsShape(curnode: Node, new v: SubId, new tmpp: Node)
      requires Inserted(curnode, v, tmpp)
      ensures Shape() && InTree(curnode)
    {
      hide Owned, Parented, Inserted;
      KeepsOwned(curnode, v, tmpp);
      KeepsParented(curnode, v, tmpp);
    }

    twostate lemma KeepsHeaded(new p: ObjectId, curnode: Node, new v: SubId, new tmpp: Node)
      requires Inserted(curnode, v, tmpp) && Shape() && p in old(tree)
      requires old(Headed(p)) && old(Headed(curnode.path))
      ensures Headed(p)
    {
      var q, n := curnode.path + [v], tree[p];
      assert Up(q) == curnode.path && Last(q) == v;
      var i := Slot(v, curnode.children.Length);
      forall j | 0 <= j < n.children.Length && n.children[j] != null
        ensures IsChild(n.children[j], p, j) && n.children[j].prevSibling == null
      {
        if n != curnode || j != i {
          var c := old(n.children[j]);
          assert old(IsChild(c, p, j));
        }
      }
    }

    twostate lemma KeepsChained(new p: ObjectId, curnode: Node, new v: SubId, new tmpp: Node)
      requires Inserted(curnode, v, tmpp) && Shape() && p in old(tree) && old(Chained(p))
      ensures Chained(p)
    {
      if p != [] {
        var n, u := tree[p], tree[Up(p)];
        var s, i := Slot(Last(p), u.children.Length), Slot(v, curnode.children.Length);
        assert n.OnChain(old(u.children[s]));
        assert u.children[s] == if u == curnode && s == i then tmpp else old(u.children[s]);
      }
    }

    twostate lemma KeepsFollowed(new p: ObjectId, curnode: Node, new v: SubId, new tmpp: Node)
      requires Inserted(curnode, v, tmpp) && Shape() && p in old(tree)
      requires old(Followed(p)) && old(Headed(curnode.path))
      ensures Followed(p)
    {
      if p != [] {
        var n, i := tree[p], Slot(Last(p), tree[Up(p)].children.Length);
        forall k | 0 <= k < |n.followers|
          ensures IsChild(n.followers[k], Up(p), i)
        {
          assert old(IsChild(n.followers[k], Up(p), i));
        }
        if n.followers != [] {
          assert old(InTree(n.followers[0]));
        }
      }
    }

    twostate lemma NewLinked(curnode: Node, new v: SubId, new tmpp: Node)
      requires Inserted(curnode, v, tmpp) && Shape() && old(Headed(curnode.path))
      requires forall j :: 0 <= j < tmpp.children.Length ==> tmpp.children[j] == null
      requires var head := old(curnode.children[Slot(v, curnode.children.Length)]);
               head != null ==> old(head.path in tree && Followed(head.path))
      ensures Linked(curnode.path + [v])
    {
      var q, i := curnode.path + [v], Slot(v, curnode.children.Length);
      assert Up(q) == curnode.path && Last(q) == v;
      var head := old(curnode.children[i]);
      assert curnode.children[i] == tmpp;
      if head != null {
        assert old(IsChild(head, curnode.path, i));
        forall k | 0 <= k < |tmpp.followers|
          ensures IsChild(tmpp.followers[k], curnode.path, i)
        {
          if k > 0 {
            assert tmpp.followers[k] == head.followers[k - 1];
            assert old(IsChild(head.followers[k - 1], curnode.path, i));
          }
        }
      }
    }

    twostate lemma SameContents(curnode: Node, new v: SubId, new tmpp: Node)
      requires old(Valid()) && Valid() && Inserted(curnode, v, tmpp) && tmpp.data == null
      ensures Contents() == old(Contents())
    {
      hide Linked;
    }

    twostate lemma KeepsLinked(new p: ObjectId, curnode: Node, new v: SubId, new tmpp: Node)
      requires Inserted(curnode, v, tmpp) && Shape() && p in old(tree)
      requires old(Linked(p)) && old(Linked(curnode.path))
      ensures Linked(p)
    {
      hide Shape, Headed, Chained, Followed, Kept;
      KeepsHeaded(p, curnode, v, tmpp);
      KeepsChained(p, curnode, v, tmpp);
      KeepsFollowed(p, curnode, v, tmpp);
    }

    twostate lemma NewIsLinked(curnode: Node, new v: SubId, new tmpp: Node)
      requires old(Valid()) && Inserted(curnode, v, tmpp) && Shape()
      requires forall j :: 0 <= j < tmpp.children.Length ==> tmpp.children[j] == null
      ensures Linked(curnode.path + [v])
    {
      hide Shape, Headed, Chained, Followed, Kept;
      var i := Slot(v, curnode.children.Length);
      var head := old(curnode.children[i]);
      assert old(Linked(curnode.path));
      HeadInTree(curnode, i);
      if head != null {
        assert old(Linked(head.path));
      }
      NewLinked(curnode, v, tmpp);
    }

    twostate lemma AllLinked(curnode: Node, new v: SubId, new tmpp: Node)
      requires old(Valid()) && Inserted(curnode, v, tmpp) && tmpp.data == null
      requires forall j :: 0 <= j < tmpp.children.Length ==> tmpp.children[j] == null
      ensures Valid() && Contents() == old(Contents())
    {
      hide Shape, Linked, Kept, Contents;
      KeepsShape(curnode, v, tmpp);
      assert old(Linked(curnode.path));
      forall p | p in old(tree)
        ensures Linked(p)
      {
        assert old(Linked(p));
        KeepsLinked(p, curnode, v, tmpp);
      }
      NewIsLinked(curnode, v, tmpp);
      SameContents(curnode, v, tmpp);
    }

    twostate lemma HeadInTree(curnode: Node, new i: nat)
      requires old(Shape()) && old(InTree(curnode)) && i < curnode.children.Length && old(Headed(curnode.path))
      ensures old(curnode.children[i]) != null ==> old(InTree(curnode.children[i]))
    {
    }

    /** A new child of `curnode`, in front of its slot's chain. */
    method NewChild(curnode: Node, v: SubId) returns (tmpp: Node)
      requires Valid() && InTree(curnode) && curnode.path + [v] !in tree
      modifies this, repr
      ensures Valid() && fresh(repr - old(repr)) && root == old(root)
      ensures tree == old(tree)[curnode.path + [v] := tmpp] && InTree(curnode)
      ensures Contents() == old(Contents())
    {
      hide Linked, Valid, Contents, Kept, Shape;
      NodeAt(curnode.path);
      HeadOfSlot(curnode, Slot(v, curnode.children.Length));
      ValidShape();
      tmpp := Insert(curnode, v);
      AllLinked(curnode, v, tmpp);
    }

    lemma NodesApart(curnode: Node)
      requires Shape() && InTree(curnode)
      ensures this in repr
      ensures forall p {:trigger tree[p]} :: p in tree ==>
                && tree[p] in repr && tree[p].children in repr
                && (tree[p] != curnode ==> tree[p].children != curnode.children)
    {
    }

    method Insert(curnode: Node, v: SubId) returns (tmpp: Node)
      requires Shape() && InTree(curnode) && curnode.path + [v] !in tree
      requires curnode in repr && curnode.children in repr && curnode.children.Length > 0
      requires var head := curnode.children[Slot(v, curnode.children.Length)]; head == null || head in repr
      modifies this, repr
      ensures Inserted(curnode, v, tmpp) && tmpp.data == null && fresh(tmpp) && fresh(tmpp.children)
      ensures forall j :: 0 <= j < tmpp.children.Length ==> tmpp.children[j] == null
    {
      hide Shape;
      ghost var q := curnode.path + [v];
      ghost var head, i := curnode.children[Slot(v, curnode.children.Length)], Slot(v, curnode.children.Length);
      NodesApart(curnode);
      tmpp := Attach(curnode, v, q);
      forall p | p in tree
        ensures Kept(tree[p], curnode, i, head, tmpp)
      {
      }
      tree := tree[q := tmpp];
      repr := repr + {tmpp, tmpp.children};
    }

    /** The root node, made when the first name is added. */
    method MakeRoot()
      requires Valid() && root == null
      modifies this
      ensures Valid() && fresh(repr - old(repr)) && root != null
      ensures tree.Keys == {[]} && Contents() == old(Contents())
    {
      root := new Node(OIDSTASH_CHILDREN_SIZE, [], []);
      tree := map[[] := root];
      repr := repr + {root, root.children};
    }

    lemma NodeAt(p: ObjectId)
      requires Valid() && p in tree
      ensures InTree(tree[p]) && tree[p].path == p && tree[p] in repr && tree[p].children.Length > 0
      ensures p in Contents() <==> tree[p].data != null
      ensures p in Contents() ==> Contents()[p] == tree[p].data
    {
    }

    /** Nothing but the data of n may have changed. */
    twostate predicate SameBut(m: Node, n: Node)
      reads m, m.children
    {
      && m.value == old(m.value) && m.parent == old(m.parent) && (m != n ==> m.data == old(m.data))
      && m.nextSibling == old(m.nextSibling) && m.prevSibling == old(m.prevSibling)
      && m.children[..] == old(m.children[..])
    }

    twostate predicate Stored(n: Node)
      reads this, repr
    {
      && old(Shape()) && root == old(root) && tree == old(tree) && repr == old(repr) && InTree(n) && n.path != []
      && forall p :: p in tree ==> SameBut(tree[p], n)
    }

    twostate lemma StoredShape(n: Node)
      requires Stored(n)
      ensures Shape()
    {
      forall p | p in tree && p != []
        ensures Up(p) in tree && tree[p].parent == tree[Up(p)] && tree[p].value == Last(p)
      {
        assert Up(p) in old(tree);
      }
    }

    twostate lemma StoredLinked(new p: ObjectId, n: Node)
      requires Stored(n) && Shape() && p in tree && old(Linked(p))
      ensures Linked(p)
    {
    }

    twostate lemma StoredValid(n: Node)
      requires old(Valid()) && Stored(n)
      ensures Valid()
    {
      hide Linked, Shape, SameBut;
      StoredShape(n);
      forall p | p in tree
        ensures Linked(p)
      {
        assert old(Linked(p));
        StoredLinked(p, n);
      }
    }

    twostate lemma StoredContents(n: Node)
      requires old(Valid()) && Valid() && Stored(n) && old(n.data) == null && n in repr
      ensures Contents() == if n.data == null then old(Contents()) else old(Contents())[n.path := n.data]
    {
      hide Linked, Valid;
    }

    /** Putting data at a node other than the root. */
    method Store(n: Node, data: object?)
      requires Valid() && InTree(n) && n.path != [] && n in repr && n.data == null
      modifies n`data
      ensures Valid()
      ensures Contents() == if data == null then old(Contents()) else old(Contents())[n.path := data]
    {
      hide Linked, Valid, Contents;
      ValidShape();
      n.data := data;
      StoredValid(n);
      StoredContents(n);
    }

    /** The child with value v, made when it is not there. */
    method Descend(curnode: Node, v: SubId) returns (tmpp: Node)
      requires Valid() && InTree(curnode)
      modifies this, repr
      ensures Valid() && fresh(repr - old(repr)) && root == old(root)
      ensures InTree(tmpp) && tmpp.path == curnode.path + [v]
      ensures tree.Keys == old(tree.Keys) + {curnode.path + [v]} && Contents() == old(Contents())
    {
      hide Valid, Shape, Contents;
      var loopp := FindChild(curnode, v);
      if loopp == null {
        loopp := NewChild(curnode, v);
      }
      NodeAt(curnode.path + [v]);
      tmpp := loopp;
    }

    /** OidStash_addData. It fails for an empty name and where data already is; nodes for the name
        are there afterwards in either case, unless it is empty. */
    method AddData(lookup: ObjectId, data: object?) returns (ok: bool)
      requires Valid()
      modifies this, repr
      ensures Valid() && fresh(repr - old(repr))
      ensures ok <==> lookup != [] && lookup !in old(Contents())
      ensures Contents() == if ok && data != null then old(Contents())[lookup := data] else old(Contents())
      ensures tree.Keys == old(tree.Keys) + if lookup == [] then {} else Prefixes(lookup)
    {
      hide Valid, Shape, Contents, Prefixes;
      if |lookup| == 0 {
        return false;
      }
      RootInTree();
      if root == null {
        MakeRoot();
      }
      RootInTree();
      var curnode: Node, i := root, 0;
      PrefixesOfEmpty(lookup);
      while i < |lookup|
        invariant 0 <= i <= |lookup| && Valid() && fresh(repr - old(repr))
        invariant InTree(curnode) && curnode.path == lookup[..i]
        invariant Contents() == old(Contents())
        invariant tree.Keys == old(tree.Keys) + Prefixes(lookup[..i])
      {
        PrefixesStep(lookup, i);
        curnode := Descend(curnode, lookup[i]);
        i := i + 1;
      }
      assert lookup[..i] == lookup;
      NodeAt(lookup);
      if curnode.data != null {
        return false;
      }
      Store(curnode, data);
      return true;
    }

    /** OidStash_getNode, which finds no node for the empty name. */
    method GetNode(lookup: ObjectId) returns (tmpp: Node?)
      requires Valid()
      ensures tmpp == if lookup != [] && lookup in tree then tree[lookup] else null
    {
      hide Valid, Shape;
      RootInTree();
      if root == null {
        return null;
      }
      tmpp := null;
      var curnode: Node, i := root, 0;
      while i < |lookup|
        invariant 0 <= i <= |lookup| && lookup[..i] in tree && curnode == tree[lookup[..i]]
        invariant tmpp == if i == 0 then null else curnode
      {
        NodeAt(lookup[..i]);
        PrefixesStep(lookup, i);
        tmpp := FindChild(curnode, lookup[i]);
        if tmpp == null {
          NoDeeper(lookup, i + 1);
          return null;
        }
        curnode, i := tmpp, i + 1;
      }
      assert lookup[..i] == lookup;
    }

    /** The prefixes of a name that has a node have nodes. */
    lemma {:induction false} NoDeeper(lookup: ObjectId, i: nat)
      requires Valid() && i <= |lookup| && lookup[..i] !in tree
      ensures lookup !in tree
      decreases |lookup| - i
    {
      if i == |lookup| {
        assert lookup[..i] == lookup;
      } else {
        assert Up(lookup[..i + 1]) == lookup[..i];
        NoDeeper(lookup, i + 1);
      }
    }

    /** OidStash_getData */
    method GetData(lookup: ObjectId) returns (data: object?)
      requires Valid()
      ensures data == if lookup in Contents() then Contents()[lookup] else null
    {
      hide Valid, Contents;
      var ret := GetNode(lookup);
      if lookup in tree {
        NodeAt(lookup);
      }
      NoDataAtRoot();
      NoDataOutside(lookup);
      if ret != null {
        return ret.data;
      }
      return null;
    }

    lemma NoDataAtRoot()
      requires Valid()
      ensures [] !in Contents()
    {
    }

    lemma NothingWithoutRoot()
      requires Valid()
      ensures if root == null then Contents() == map[] else [] in tree
    {
    }

    lemma NoDataOutside(p: ObjectId)
      requires Valid()
      ensures p in Contents() ==> p in tree
    {
    }
  }

  lemma OnChainNext(n: Node, loopp: Node)
    requires n.OnChain(loopp) && n != loopp
    ensures loopp.followers != [] && (loopp.followers[0].followers == loopp.followers[1..] ==> n.OnChain(loopp.followers[0]))
  {
  }

  lemma OnChainNotNull(n: Node, head: Node?)
    requires n.OnChain(head)
    ensures head != null
  {
  }
}
