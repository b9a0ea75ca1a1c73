/**
  The intrusive sibling lists of `xml_node`: child nodes linked through their own prev, next and parent pointers.
  The pointers of a set of nodes are first studied as a value, then the methods are shown to change them so.
 */
module XmlList {

  datatype NodeType = Document | Element | Data | Cdata | Comment | Declaration | Doctype | Pi

  // ---------------------------------------------------------------- pointers as a value

  /** The pointers of a node as a child. Without a parent, its siblings have no meaning. */
  datatype Up = Up(parent: XmlNode?, prev: XmlNode?, next: XmlNode?)

  /** The pointers of a node as a parent, and the children they stand for. Without a first child, last has no meaning. */
  datatype Down = Down(first: XmlNode?, last: XmlNode?, children: seq<XmlNode>)

  datatype Pointers = Pointers(up: map<XmlNode, Up>, down: map<XmlNode, Down>)

  ghost predicate UpIs(u: Up, cs: seq<XmlNode>, i: nat, n: XmlNode)
    requires i < |cs|
  {
    && u.parent == n
    && u.prev == (if i == 0 then null else cs[i - 1])
    && u.next == (if i + 1 == |cs| then null else cs[i + 1])
  }

  /** A node's pointers stand for its children: distinct nodes, in order, each pointing back. */
  ghost predicate Linked(p: Pointers, n: XmlNode)
    requires n in p.down
  {
    var d := p.down[n];
    var cs := d.children;
    && d.first == (if cs == [] then null else cs[0])
    && (cs != [] ==> d.last == cs[|cs| - 1])
    && Distinct(cs)
    && forall i :: 0 <= i < |cs| ==> cs[i] in p.up && UpIs(p.up[cs[i]], cs, i, n)
  }

  ghost predicate Distinct(cs: seq<XmlNode>) {
    forall i, j :: 0 <= i < j < |cs| ==> cs[i] != cs[j]
  }

  /** Every list is in order, and every parent pointer is matched by a place in the parent's list. */
  ghost predicate Forest(p: Pointers) {
    && p.up.Keys == p.down.Keys
    && (forall n <- p.down :: Linked(p, n))
    && forall c <- p.up :: p.up[c].parent != null ==>
         p.up[c].parent in p.down && c in p.down[p.up[c].parent].children
  }

  /** Everything but the list of `n` is as before: only nodes of that list, before or after, were touched. */
  ghost predicate OnlyList(p: Pointers, q: Pointers, n: XmlNode) {
    && q.up.Keys == p.up.Keys && q.down.Keys == p.down.Keys && n in p.down
    && (forall m <- p.down :: m != n ==> q.down[m] == p.down[m])
    && forall c <- p.up :: q.up[c] != p.up[c] ==> p.up[c].parent == null || p.up[c].parent == n
  }

  /** The step every operation rests on: relinking one list correctly keeps the whole forest in order. */
  lemma Relinked(p: Pointers, q: Pointers, n: XmlNode)
    requires Forest(p) && OnlyList(p, q, n) && Linked(q, n)
    requires forall c <- p.up :: q.up[c] != p.up[c] && q.up[c].parent != null ==>
               q.up[c].parent == n && c in q.down[n].children
    requires forall c <- p.down[n].children :: c in q.down[n].children || (c in q.up && q.up[c].parent == null)
    ensures Forest(q)
  {
    forall m <- q.down | m != n ensures Linked(q, m) {
      var cs := p.down[m].children;
      assert Linked(p, m);
      forall i | 0 <= i < |cs| ensures q.up[cs[i]] == p.up[cs[i]] {
        assert UpIs(p.up[cs[i]], cs, i, m);
      }
    }
  }

  // ---------------------------------------------------------------- the operations on the value

  /** A list with a node put in at place `k`; the neighbours point to it. */
  function Inserted(p: Pointers, n: XmlNode, k: nat, child: XmlNode): (q: Pointers)
    requires n in p.down && k <= |p.down[n].children| && child in p.up
  {
    var cs := p.down[n].children;
    var before: XmlNode? := if k == 0 then null else cs[k - 1];
    var after: XmlNode? := if k == |cs| then null else cs[k];
    var up1 := if before != null && before in p.up then p.up[before := p.up[before].(next := child)] else p.up;
    var up2 := if after != null && after in up1 then up1[after := up1[after].(prev := child)] else up1;
    var d := p.down[n];
    Pointers(up2[child := Up(n, before, after)],
             p.down[n := Down(if k == 0 then child else d.first, if k == |cs| then child else d.last,
                              cs[..k] + [child] + cs[k..])])
  }

  /** A list with the node at place `k` taken out; its own sibling pointers are left as they were. */
  function Removed(p: Pointers, n: XmlNode, k: nat): (q: Pointers)
    requires n in p.down && k < |p.down[n].children| && p.down[n].children[k] in p.up
  {
    var cs := p.down[n].children;
    var child := cs[k];
    var before: XmlNode? := if k == 0 then null else cs[k - 1];
    var after: XmlNode? := if k + 1 == |cs| then null else cs[k + 1];
    var up1 := if before != null && before in p.up then p.up[before := p.up[before].(next := after)] else p.up;
    var up2 := if after != null && after in up1 then up1[after := up1[after].(prev := before)] else up1;
    var d := p.down[n];
    Pointers(up2[child := up2[child].(parent := null)],
             p.down[n := Down(if k == 0 then after else d.first, if k + 1 == |cs| then before else d.last,
                              cs[..k] + cs[k + 1..])])
  }

  /** What a list in order says about its members. */
  lemma ListFacts(p: Pointers, n: XmlNode)
    requires Forest(p) && n in p.down
    ensures var cs := p.down[n].children;
            Distinct(cs) && forall i :: 0 <= i < |cs| ==> cs[i] in p.up && UpIs(p.up[cs[i]], cs, i, n)
  {
    assert Linked(p, n);
  }

  lemma ListEnds(p: Pointers, n: XmlNode)
    requires Forest(p) && n in p.down
    ensures var d := p.down[n];
            d.children != [] ==> d.first == d.children[0] && d.last == d.children[|d.children| - 1]
  {
    assert Linked(p, n);
  }

  lemma NotListed(p: Pointers, n: XmlNode, child: XmlNode)
    requires Forest(p) && n in p.down && child in p.up && p.up[child].parent == null
    ensures child !in p.down[n].children
  {
    ListFacts(p, n);
    var cs := p.down[n].children;
    assert forall i :: 0 <= i < |cs| ==> p.up[cs[i]].parent == n;
  }

  lemma InsertedAt(p: Pointers, n: XmlNode, k: nat, child: XmlNode, i: nat)
    requires n in p.down && k <= |p.down[n].children| && child in p.up && i < |p.down[n].children|
    requires var cs := p.down[n].children;
             Distinct(cs) && child !in cs && forall j :: 0 <= j < |cs| ==> cs[j] in p.up
    ensures var c := p.down[n].children[i];
            var q := Inserted(p, n, k, child);
            c in q.up && q.up[c] == (if i + 1 == k then p.up[c].(next := child)
                                     else if i == k then p.up[c].(prev := child) else p.up[c])
  {
    var cs := p.down[n].children;
    if k > 0 && i + 1 != k {
      assert cs[i] != cs[k - 1];
    }
    if k < |cs| && i != k {
      assert cs[i] != cs[k];
    }
  }

  lemma InsertedElsewhere(p: Pointers, n: XmlNode, k: nat, child: XmlNode, c: XmlNode)
    requires n in p.down && k <= |p.down[n].children| && child in p.up && c in p.up
    requires c != child && c !in p.down[n].children
    ensures c in Inserted(p, n, k, child).up && Inserted(p, n, k, child).up[c] == p.up[c]
  {
  }

  lemma InsertDistinct(cs: seq<XmlNode>, k: nat, child: XmlNode)
    requires k <= |cs| && Distinct(cs) && child !in cs
    ensures Distinct(cs[..k] + [child] + cs[k..])
  {
    var ds := cs[..k] + [child] + cs[k..];
    forall i, j | 0 <= i < j < |ds| ensures ds[i] != ds[j] {
      assert ds[i] == if i < k then cs[i] else if i == k then child else cs[i - 1];
      assert ds[j] == if j < k then cs[j] else if j == k then child else cs[j - 1];
    }
  }

  lemma InsertedShape(p: Pointers, n: XmlNode, k: nat, child: XmlNode)
    requires Forest(p) && n in p.down && k <= |p.down[n].children| && child in p.up
    ensures var cs := p.down[n].children;
            var q := Inserted(p, n, k, child);
            var ds := q.down[n].children;
            && ds == cs[..k] + [child] + cs[k..]
            && q.down[n].first == ds[0] && q.down[n].last == ds[|ds| - 1]
            && q.up[child] == Up(n, if k == 0 then null else cs[k - 1], if k == |cs| then null else cs[k])
            && q.up.Keys == p.up.Keys && q.down.Keys == p.down.Keys
            && forall m <- p.down :: m != n ==> q.down[m] == p.down[m]
  {
    hide Forest, Linked, Distinct, UpIs;
    ListEnds(p, n);
    ListFacts(p, n);
    var cs := p.down[n].children;
    var ds := cs[..k] + [child] + cs[k..];
    assert ds[0] == (if k == 0 then child else cs[0]);
    assert ds[|ds| - 1] == (if k == |cs| then child else cs[|cs| - 1]);
  }

  lemma InsertUp(cs: seq<XmlNode>, k: nat, child: XmlNode, i: nat, u: Up, n: XmlNode)
    requires k <= |cs| && i < |cs| && UpIs(u, cs, i, n)
    ensures var ds := cs[..k] + [child] + cs[k..];
            var j := if i < k then i else i + 1;
            var v := if i + 1 == k then u.(next := child) else if i == k then u.(prev := child) else u;
            ds[j] == cs[i] && UpIs(v, ds, j, n)
  {
    var ds := cs[..k] + [child] + cs[k..];
    assert forall x :: 0 <= x < k ==> ds[x] == cs[x];
    assert ds[k] == child;
    assert forall x :: k < x < |ds| ==> ds[x] == cs[x - 1];
  }

  lemma InsertLinks(p: Pointers, n: XmlNode, k: nat, child: XmlNode)
    requires Forest(p) && n in p.down && k <= |p.down[n].children| && child in p.up && p.up[child].parent == null
    ensures Linked(Inserted(p, n, k, child), n)
  {
    hide Inserted, Forest, Linked, Distinct, UpIs;
    var cs := p.down[n].children;
    ListFacts(p, n);
    NotListed(p, n, child);
    InsertDistinct(cs, k, child);
    InsertedShape(p, n, k, child);
    var q := Inserted(p, n, k, child);
    var ds := q.down[n].children;
    forall i | 0 <= i < |ds| ensures ds[i] in q.up && UpIs(q.up[ds[i]], ds, i, n) {
      if i == k {
        InsertedUp(cs, k, child, n);
      } else {
        var j := if i < k then i else i - 1;
        InsertedAt(p, n, k, child, j);
        InsertUp(cs, k, child, j, p.up[cs[j]], n);
      }
    }
    LinkedBy(q, n);
  }

  lemma InsertedUp(cs: seq<XmlNode>, k: nat, child: XmlNode, n: XmlNode)
    requires k <= |cs|
    ensures var ds := cs[..k] + [child] + cs[k..];
            ds[k] == child && UpIs(Up(n, if k == 0 then null else cs[k - 1], if k == |cs| then null else cs[k]), ds, k, n)
  {
  }

  lemma LinkedBy(p: Pointers, n: XmlNode)
    requires n in p.down
    requires var d := p.down[n];
             var cs := d.children;
             && d.first == (if cs == [] then null else cs[0])
             && (cs != [] ==> d.last == cs[|cs| - 1])
             && Distinct(cs)
             && forall i :: 0 <= i < |cs| ==> cs[i] in p.up && UpIs(p.up[cs[i]], cs, i, n)
    ensures Linked(p, n)
  {
  }

  /** A changed node of an insertion belongs to the list. */
  lemma InsertTouches(p: Pointers, n: XmlNode, k: nat, child: XmlNode, c: XmlNode)
    requires Forest(p) && n in p.down && k <= |p.down[n].children| && child in p.up && p.up[child].parent == null
    requires c in p.up && c in Inserted(p, n, k, child).up && Inserted(p, n, k, child).up[c] != p.up[c]
    ensures p.up[c].parent == null || p.up[c].parent == n
    ensures Inserted(p, n, k, child).up[c].parent == n && c in Inserted(p, n, k, child).down[n].children
  {
    hide Inserted, Forest, Linked, Distinct;
    var cs := p.down[n].children;
    ListFacts(p, n);
    NotListed(p, n, child);
    InsertedShape(p, n, k, child);
    var ds := Inserted(p, n, k, child).down[n].children;
    if c == child {
      assert ds[k] == child;
    } else {
      if c !in cs {
        InsertedElsewhere(p, n, k, child, c);
      }
      var i :| 0 <= i < |cs| && cs[i] == c;
      InsertedAt(p, n, k, child, i);
      assert UpIs(p.up[cs[i]], cs, i, n);
      assert c == ds[if i < k then i else i + 1];
    }
  }

  /** Putting a parentless node into a list keeps the forest, and touches no other list. */
  lemma InsertForest(p: Pointers, n: XmlNode, k: nat, child: XmlNode)
    requires Forest(p) && n in p.down && k <= |p.down[n].children| && child in p.up && p.up[child].parent == null
    ensures Forest(Inserted(p, n, k, child)) && OnlyList(p, Inserted(p, n, k, child), n)
  {
    hide Inserted, Linked, Distinct, Forest;
    var cs := p.down[n].children;
    var q := Inserted(p, n, k, child);
    InsertLinks(p, n, k, child);
    InsertedShape(p, n, k, child);
    SameKeys(p);
    var ds := q.down[n].children;
    forall c <- cs ensures c in ds {
      var i :| 0 <= i < |cs| && cs[i] == c;
      assert c == ds[if i < k then i else i + 1];
    }
    forall c <- p.up | q.up[c] != p.up[c]
      ensures (p.up[c].parent == null || p.up[c].parent == n) && q.up[c].parent == n && c in ds
    {
      InsertTouches(p, n, k, child, c);
    }
    Relinked(p, q, n);
  }

  lemma SameKeys(p: Pointers)
    requires Forest(p)
    ensures p.up.Keys == p.down.Keys
  {
  }

  // ---------------------------------------------------------------- removal

  lemma RemovedShape(p: Pointers, n: XmlNode, k: nat)
    requires Forest(p) && n in p.down && k < |p.down[n].children|
    ensures var cs := p.down[n].children;
            && cs[k] in p.up
            && var q := Removed(p, n, k);
               var ds := q.down[n].children;
               && ds == cs[..k] + cs[k + 1..]
               && q.down[n].first == (if ds == [] then null else ds[0])
               && (ds != [] ==> q.down[n].last == ds[|ds| - 1])
               && q.up.Keys == p.up.Keys && q.down.Keys == p.down.Keys
               && q.up[cs[k]].parent == null
               && forall m <- p.down :: m != n ==> q.down[m] == p.down[m]
  {
    hide Forest, Linked, Distinct, UpIs;
    ListEnds(p, n);
    ListFacts(p, n);
    var cs := p.down[n].children;
    var ds := cs[..k] + cs[k + 1..];
    if ds != [] {
      assert ds[0] == (if k == 0 then cs[1] else cs[0]);
      assert ds[|ds| - 1] == (if k + 1 == |cs| then cs[k - 1] else cs[|cs| - 1]);
    }
  }

  lemma RemovedAt(p: Pointers, n: XmlNode, k: nat, i: nat)
    requires n in p.down && k < |p.down[n].children| && i < |p.down[n].children| && i != k
    requires var cs := p.down[n].children; Distinct(cs) && forall j :: 0 <= j < |cs| ==> cs[j] in p.up
    ensures var cs := p.down[n].children;
            var c := cs[i];
            var q := Removed(p, n, k);
            c in q.up
            && q.up[c] == (if i + 1 == k then p.up[c].(next := if k + 1 == |cs| then null else cs[k + 1])
                           else if i == k + 1 then p.up[c].(prev := if k == 0 then null else cs[k - 1])
                           else p.up[c])
  {
    var cs := p.down[n].children;
    assert cs[i] != cs[k];
    if k > 0 && i + 1 != k {
      assert cs[i] != cs[k - 1];
    }
    if k + 1 < |cs| && i != k + 1 {
      assert cs[i] != cs[k + 1];
    }
  }

  lemma RemovedElsewhere(p: Pointers, n: XmlNode, k: nat, c: XmlNode)
    requires n in p.down && k < |p.down[n].children| && p.down[n].children[k] in p.up && c in p.up
    requires c !in p.down[n].children
    ensures c in Removed(p, n, k).up && Removed(p, n, k).up[c] == p.up[c]
  {
  }

  lemma RemoveDistinct(cs: seq<XmlNode>, k: nat)
    requires k < |cs| && Distinct(cs)
    ensures Distinct(cs[..k] + cs[k + 1..]) && cs[k] !in cs[..k] + cs[k + 1..]
  {
    var ds := cs[..k] + cs[k + 1..];
    assert forall i :: 0 <= i < |ds| ==> ds[i] == cs[if i < k then i else i + 1];
  }

  lemma RemoveUp(cs: seq<XmlNode>, k: nat, i: nat, u: Up, n: XmlNode)
    requires k < |cs| && i < |cs| && i != k && UpIs(u, cs, i, n)
    ensures var ds := cs[..k] + cs[k + 1..];
            var j := if i < k then i else i - 1;
            var v := if i + 1 == k then u.(next := if k + 1 == |cs| then null else cs[k + 1])
                     else if i == k + 1 then u.(prev := if k == 0 then null else cs[k - 1])
                     else u;
            ds[j] == cs[i] && UpIs(v, ds, j, n)
  {
    var ds := cs[..k] + cs[k + 1..];
    assert forall x :: 0 <= x < k ==> ds[x] == cs[x];
    assert forall x :: k <= x < |ds| ==> ds[x] == cs[x + 1];
  }

  lemma RemoveLinks(p: Pointers, n: XmlNode, k: nat)
    requires Forest(p) && n in p.down && k < |p.down[n].children|
    ensures p.down[n].children[k] in p.up && n in Removed(p, n, k).down && Linked(Removed(p, n, k), n)
  {
    hide Removed, Forest, Linked, Distinct, UpIs;
    var cs := p.down[n].children;
    ListFacts(p, n);
    RemoveDistinct(cs, k);
    RemovedShape(p, n, k);
    var q := Removed(p, n, k);
    var ds := q.down[n].children;
    forall i | 0 <= i < |ds| ensures ds[i] in q.up && UpIs(q.up[ds[i]], ds, i, n) {
      var j := if i < k then i else i + 1;
      RemovedAt(p, n, k, j);
      RemoveUp(cs, k, j, p.up[cs[j]], n);
    }
    LinkedBy(q, n);
  }

  lemma RemoveTouches(p: Pointers, n: XmlNode, k: nat, c: XmlNode)
    requires Forest(p) && n in p.down && k < |p.down[n].children| && p.down[n].children[k] in p.up
    requires c in p.up && c in Removed(p, n, k).up && Removed(p, n, k).up[c] != p.up[c]
    ensures p.up[c].parent == n
    ensures Removed(p, n, k).up[c].parent == null
         || (Removed(p, n, k).up[c].parent == n && c in Removed(p, n, k).down[n].children)
  {
    hide Removed, Forest, Linked, Distinct;
    var cs := p.down[n].children;
    ListFacts(p, n);
    RemovedShape(p, n, k);
    var ds := Removed(p, n, k).down[n].children;
    if c !in cs {
      RemovedElsewhere(p, n, k, c);
    }
    var i :| 0 <= i < |cs| && cs[i] == c;
    assert UpIs(p.up[cs[i]], cs, i, n);
    if i != k {
      RemovedAt(p, n, k, i);
      assert c == ds[if i < k then i else i - 1];
    }
  }

  /** Taking a node out of its list keeps the forest, and touches no other list. */
  lemma RemoveForest(p: Pointers, n: XmlNode, k: nat)
    requires Forest(p) && n in p.down && k < |p.down[n].children|
    ensures p.down[n].children[k] in p.up
    ensures Forest(Removed(p, n, k)) && OnlyList(p, Removed(p, n, k), n)
  {
    hide Removed, Linked, Distinct, Forest;
    var cs := p.down[n].children;
    ListFacts(p, n);
    RemoveLinks(p, n, k);
    RemovedShape(p, n, k);
    SameKeys(p);
    var q := Removed(p, n, k);
    var ds := q.down[n].children;
    forall c <- cs ensures c in ds || (c in q.up && q.up[c].parent == null) {
      var i :| 0 <= i < |cs| && cs[i] == c;
      assert i < k ==> c == ds[i];
      assert i > k ==> c == ds[i - 1];
    }
    forall c <- p.up | q.up[c] != p.up[c]
      ensures p.up[c].parent == n && (q.up[c].parent == null || (q.up[c].parent == n && c in ds))
    {
      RemoveTouches(p, n, k, c);
    }
    Relinked(p, q, n);
  }

  /** The value of last has no meaning while a list is empty. */
  lemma LastIsFree(p: Pointers, n: XmlNode, last: XmlNode?)
    requires Forest(p) && n in p.down && p.down[n].children == []
    ensures Forest(p.(down := p.down[n := p.down[n].(last := last)]))
  {
    var q := p.(down := p.down[n := p.down[n].(last := last)]);
    hide Distinct, UpIs;
    forall m <- q.down ensures Linked(q, m) {
      assert Linked(p, m);
    }
  }

  // ---------------------------------------------------------------- the nodes

  class XmlNode {
    var kind: NodeType
    var firstNode: XmlNode?
    var lastNode: XmlNode?
    var prevSibling: XmlNode?
    var nextSibling: XmlNode?
    var parent: XmlNode?

    /** The children the pointers stand for. */
    ghost var children: seq<XmlNode>

    constructor (kind: NodeType)
      ensures this.kind == kind && parent == null && firstNode == null && children == []
    {
      this.kind := kind;
      firstNode, parent, children := null, null, [];
    }

    // One pointer write each.

    method SetParent(x: XmlNode?, ghost world: set<XmlNode>)
      requires this in world
      modifies this`parent
      ensures PointersOf(world) == WithParent(old(PointersOf(world)), this, x)
    {
      parent := x;
    }

    method SetPrev(x: XmlNode?, ghost world: set<XmlNode>)
      requires this in world
      modifies this`prevSibling
      ensures PointersOf(world) == WithPrev(old(PointersOf(world)), this, x)
    {
      prevSibling := x;
    }

    method SetNext(x: XmlNode?, ghost world: set<XmlNode>)
      requires this in world
      modifies this`nextSibling
      ensures PointersOf(world) == WithNext(old(PointersOf(world)), this, x)
    {
      nextSibling := x;
    }

    method SetFirst(x: XmlNode?, ghost world: set<XmlNode>)
      requires this in world
      modifies this`firstNode
      ensures PointersOf(world) == WithFirst(old(PointersOf(world)), this, x)
    {
      firstNode := x;
    }

    method SetLast(x: XmlNode?, ghost world: set<XmlNode>)
      requires this in world
      modifies this`lastNode
      ensures PointersOf(world) == WithLast(old(PointersOf(world)), this, x)
    {
      lastNode := x;
    }

    ghost method SetChildren(x: seq<XmlNode>, world: set<XmlNode>)
      requires this in world
      modifies this`children
      ensures PointersOf(world) == WithChildren(old(PointersOf(world)), this, x) && children == x
    {
      children := x;
    }

    /** `prepend_node`. */
    method PrependNode(child: XmlNode, ghost world: set<XmlNode>)
      requires this in world && child in world && Forest(PointersOf(world))
      requires child.parent == null && child.kind != Document
      modifies world
      ensures PointersOf(world) == Inserted(old(PointersOf(world)), this, 0, child)
      ensures Forest(PointersOf(world)) && children == [child] + old(children)
    {
      hide Forest, Inserted, PointersOf, WithParent, WithPrev, WithNext, WithFirst, WithLast, WithChildren;
      ghost var p, cs := PointersOf(world), children;
      Fields(world, this);
      Fields(world, child);
      ListNodes(p, this);
      InsertForest(p, this, 0, child);
      PrependWrites(p, this, child);
      if firstNode != null {
        child.SetNext(firstNode, world);
        firstNode.SetPrev(child, world);
      } else {
        child.SetNext(null, world);
        SetLast(child, world);
      }
      SetFirst(child, world);
      child.SetParent(this, world);
      child.SetPrev(null, world);
      SetChildren(cs[..0] + [child] + cs[0..], world);
      assert cs[..0] + [child] + cs[0..] == [child] + cs;
    }

    /** `append_node`. */
    method AppendNode(child: XmlNode, ghost world: set<XmlNode>)
      requires this in world && child in world && Forest(PointersOf(world))
      requires child.parent == null && child.kind != Document
      modifies world
      ensures PointersOf(world) == Inserted(old(PointersOf(world)), this, |old(children)|, child)
      ensures Forest(PointersOf(world)) && children == old(children) + [child]
    {
      hide Forest, Inserted, PointersOf, WithParent, WithPrev, WithNext, WithFirst, WithLast, WithChildren;
      ghost var p, cs := PointersOf(world), children;
      Fields(world, this);
      Fields(world, child);
      ListNodes(p, this);
      InsertForest(p, this, |cs|, child);
      AppendWrites(p, this, child);
      if firstNode != null {
        child.SetPrev(lastNode, world);
        lastNode.SetNext(child, world);
      } else {
        child.SetPrev(null, world);
        SetFirst(child, world);
      }
      SetLast(child, world);
      child.SetParent(this, world);
      child.SetNext(null, world);
      SetChildren(cs[..|cs|] + [child] + cs[|cs|..], world);
      assert cs[..|cs|] + [child] + cs[|cs|..] == cs + [child];
    }

    /** `insert_node`; a null `where` means at the back. */
    method InsertNode(where: XmlNode?, child: XmlNode, ghost world: set<XmlNode>)
      requires this in world && child in world && (where != null ==> where in world && where.parent == this)
      requires Forest(PointersOf(world))
      requires child.parent == null && child.kind != Document
      modifies world
      ensures Forest(PointersOf(world))
      ensures var p := old(PointersOf(world));
              PointersOf(world) == Inserted(p, this, PlaceBefore(p, this, where), child)
    {
      hide Forest, Inserted, PointersOf, WithParent, WithPrev, WithNext, WithFirst, WithLast, WithChildren;
      ghost var p, cs := PointersOf(world), children;
      Fields(world, this);
      Fields(world, child);
      if where != null {
        Fields(world, where);
      }
      ListNodes(p, this);
      ghost var k := PlaceBefore(p, this, where);
      PlaceIsFirst(p, this, where);
      if where == firstNode {
        PrependNode(child, world);
      } else if where == null {
        AppendNode(child, world);
      } else {
        PlaceFacts(p, this, k);
        InsertForest(p, this, k, child);
        InsertWrites(p, this, k, child);
        child.SetPrev(where.prevSibling, world);
        child.SetNext(where, world);
        where.prevSibling.SetNext(child, world);
        where.SetPrev(child, world);
        child.SetParent(this, world);
        SetChildren(cs[..k] + [child] + cs[k..], world);
      }
    }

    /** `remove_first_node`. */
    method RemoveFirstNode(ghost world: set<XmlNode>)
      requires this in world && Forest(PointersOf(world)) && firstNode != null
      modifies world
      ensures old(children) != [] && PointersOf(world) == Removed(old(PointersOf(world)), this, 0)
      ensures Forest(PointersOf(world)) && children == old(children)[1..]
    {
      hide Forest, Removed, PointersOf, WithParent, WithPrev, WithNext, WithFirst, WithLast, WithChildren;
      ghost var p, cs := PointersOf(world), children;
      Fields(world, this);
      ListNodes(p, this);
      PlaceFacts(p, this, 0);
      RemoveForest(p, this, 0);
      RemoveFirstWrites(p, this);
      var child := firstNode;
      Fields(world, child);
      SetFirst(child.nextSibling, world);
      if child.nextSibling != null {
        child.nextSibling.SetPrev(null, world);
      } else {
        SetLast(null, world);
      }
      child.SetParent(null, world);
      SetChildren(cs[..0] + cs[0 + 1..], world);
      assert cs[..0] + cs[0 + 1..] == cs[1..];
    }

    /** `remove_last_node`; when the list becomes empty its last pointer keeps its old value. */
    method RemoveLastNode(ghost world: set<XmlNode>)
      requires this in world && Forest(PointersOf(world)) && firstNode != null
      modifies world
      ensures old(children) != []
      ensures PointersOf(world) == WithoutLast(old(PointersOf(world)), this)
      ensures Forest(PointersOf(world)) && children == old(children)[..|old(children)| - 1]
    {
      hide Forest, Removed, PointersOf, WithParent, WithPrev, WithNext, WithFirst, WithLast, WithChildren, WithoutLast;
      ghost var p, cs := PointersOf(world), children;
      ghost var k := |cs| - 1;
      Fields(world, this);
      ListNodes(p, this);
      PlaceFacts(p, this, k);
      WithoutLastForest(p, this);
      RemoveLastWrites(p, this);
      var child := lastNode;
      Fields(world, child);
      if child.prevSibling != null {
        SetLast(child.prevSibling, world);
        child.prevSibling.SetNext(null, world);
      } else {
        SetFirst(null, world);
      }
      child.SetParent(null, world);
      SetChildren(cs[..k] + cs[k + 1..], world);
      assert cs[..k] + cs[k + 1..] == cs[..k];
    }

    /** `remove_node`. */
    method RemoveNode(where: XmlNode, ghost world: set<XmlNode>)
      requires this in world && where in world && where.parent == this && Forest(PointersOf(world))
      modifies world
      ensures Forest(PointersOf(world))
      ensures var p := old(PointersOf(world));
              PlaceOf(p, where) < |old(children)|
              && PointersOf(world) == Removed(p, this, PlaceOf(p, where))
    {
      hide Forest, Removed, PointersOf, WithParent, WithPrev, WithNext, WithFirst, WithLast, WithChildren, WithoutLast;
      ghost var p, cs := PointersOf(world), children;
      Fields(world, this);
      Fields(world, where);
      ListNodes(p, this);
      ghost var k := PlaceOf(p, where);
      PlaceFacts(p, this, k);
      RemoveForest(p, this, k);
      if where == firstNode {
        RemoveFirstNode(world);
      } else if where == lastNode {
        WithoutLastIsRemoved(p, this);
        RemoveLastNode(world);
      } else {
        RemoveWrites(p, this, k);
        where.prevSibling.SetNext(where.nextSibling, world);
        where.nextSibling.SetPrev(where.prevSibling, world);
        where.SetParent(null, world);
        SetChildren(cs[..k] + cs[k + 1..], world);
      }
    }

    /** `remove_all_nodes`: walks the list by the next pointers, which it does not clear. */
    method RemoveAllNodes(ghost world: set<XmlNode>)
      requires this in world && Forest(PointersOf(world))
      modifies world
      ensures PointersOf(world) == Emptied(old(PointersOf(world)), this)
      ensures Forest(PointersOf(world)) && children == []
    {
      hide Forest, PointersOf, WithParent, WithFirst, WithChildren, Emptied, Orphaned, UpIs, Distinct;
      ghost var p, cs := PointersOf(world), children;
      Fields(world, this);
      ListNodes(p, this);
      EmptiedForest(p, this);
      NoOrphans(p);
      var node := firstNode;
      ghost var k := 0;
      while node != null
        invariant 0 <= k <= |cs| && node == (if k == |cs| then null else cs[k])
        invariant PointersOf(world) == Orphaned(p, cs[..k])
        invariant children == cs
        decreases |cs| - k
      {
        Fields(world, node);
        OrphanStep(p, this, k);
        node.SetParent(null, world);
        node := node.nextSibling;
        k := k + 1;
      }
      assert cs[..k] == cs;
      OrphanKeys(p, cs);
      EmptiedWrites(p, this);
      SetFirst(null, world);
      SetChildren([], world);
    }
  }

  /** The pointer writes of `remove_first_node`. */
  lemma RemoveFirstWrites(p: Pointers, n: XmlNode)
    requires Forest(p) && n in p.down && p.down[n].children != []
    ensures var cs := p.down[n].children;
            var next := p.up[cs[0]].next;
            (next != null ==> next in p.up)
            && Removed(p, n, 0)
            == WithChildren(WithParent(
                 if next != null then WithPrev(WithFirst(p, n, next), next, null)
                 else WithLast(WithFirst(p, n, next), n, null),
                 cs[0], null), n, cs[..0] + cs[0 + 1..])
  {
    hide Forest, Removed;
    ListNodes(p, n);
    PlaceFacts(p, n, 0);
    var cs := p.down[n].children;
    var next := p.up[cs[0]].next;
    var q := if next != null then WithPrev(WithFirst(p, n, next), next, null)
             else WithLast(WithFirst(p, n, next), n, null);
    IsRemoved(p, WithChildren(WithParent(q, cs[0], null), n, cs[..0] + cs[0 + 1..]), n, 0);
  }

  /** The result of `remove_last_node`. */
  function WithoutLast(p: Pointers, n: XmlNode): Pointers
    requires n in p.down && p.down[n].children != [] && p.down[n].children[|p.down[n].children| - 1] in p.up
  {
    var cs := p.down[n].children;
    var q := Removed(p, n, |cs| - 1);
    if |cs| == 1 then WithLast(q, n, p.down[n].last) else q
  }

  lemma WithoutLastIsRemoved(p: Pointers, n: XmlNode)
    requires n in p.down && |p.down[n].children| > 1 && p.down[n].children[|p.down[n].children| - 1] in p.up
    ensures WithoutLast(p, n) == Removed(p, n, |p.down[n].children| - 1)
  {
  }

  lemma WithoutLastForest(p: Pointers, n: XmlNode)
    requires Forest(p) && n in p.down && p.down[n].children != []
    ensures p.down[n].children[|p.down[n].children| - 1] in p.up && Forest(WithoutLast(p, n))
  {
    hide Forest, Removed;
    var k := |p.down[n].children| - 1;
    RemoveForest(p, n, k);
    RemovedShape(p, n, k);
    if k == 0 {
      LastIsFree(Removed(p, n, k), n, p.down[n].last);
    }
  }

  /** The pointer writes of `remove_last_node`. */
  lemma RemoveLastWrites(p: Pointers, n: XmlNode)
    requires Forest(p) && n in p.down && p.down[n].children != []
    ensures var cs := p.down[n].children;
            var k := |cs| - 1;
            var prev := p.up[cs[k]].prev;
            (prev != null ==> prev in p.up)
            && WithoutLast(p, n)
            == WithChildren(WithParent(
                 if prev != null then WithNext(WithLast(p, n, prev), prev, null) else WithFirst(p, n, null),
                 cs[k], null), n, cs[..k] + cs[k + 1..])
  {
    hide Forest, Removed;
    ListNodes(p, n);
    var cs := p.down[n].children;
    var k := |cs| - 1;
    PlaceFacts(p, n, k);
    var prev := p.up[cs[k]].prev;
    var q := if prev != null then WithNext(WithLast(p, n, prev), prev, null) else WithFirst(p, n, null);
    var r := WithChildren(WithParent(q, cs[k], null), n, cs[..k] + cs[k + 1..]);
    if k == 0 {
      IsRemoved(p, WithLast(r, n, null), n, k);
      assert WithLast(WithLast(r, n, null), n, p.down[n].last) == r;
    } else {
      IsRemoved(p, r, n, k);
    }
  }

  /** The pointer writes of `remove_node` in the middle of a list. */
  lemma RemoveWrites(p: Pointers, n: XmlNode, k: nat)
    requires Forest(p) && n in p.down && 0 < k < |p.down[n].children| - 1
    ensures var cs := p.down[n].children;
            cs[k - 1] in p.up && cs[k + 1] in p.up
            && Removed(p, n, k)
            == WithChildren(WithParent(WithPrev(WithNext(p, cs[k - 1], cs[k + 1]), cs[k + 1], cs[k - 1]), cs[k], null),
                            n, cs[..k] + cs[k + 1..])
  {
    hide Forest, Removed;
    ListNodes(p, n);
    PlaceFacts(p, n, k);
    var cs := p.down[n].children;
    var q := WithPrev(WithNext(p, cs[k - 1], cs[k + 1]), cs[k + 1], cs[k - 1]);
    IsRemoved(p, WithChildren(WithParent(q, cs[k], null), n, cs[..k] + cs[k + 1..]), n, k);
  }

  /** Pointers that changed just so are those of the removal. */
  lemma IsRemoved(p: Pointers, q: Pointers, n: XmlNode, k: nat)
    requires n in p.down && k < |p.down[n].children|
    requires (forall c <- p.down[n].children :: c in p.up) && Distinct(p.down[n].children)
    requires q.up.Keys == p.up.Keys && q.down.Keys == p.down.Keys
    requires var cs := p.down[n].children;
             var d := p.down[n];
             var before: XmlNode? := if k == 0 then null else cs[k - 1];
             var after: XmlNode? := if k + 1 == |cs| then null else cs[k + 1];
             && q.up[cs[k]] == p.up[cs[k]].(parent := null)
             && (k > 0 ==> q.up[cs[k - 1]] == p.up[cs[k - 1]].(next := after))
             && (k + 1 < |cs| ==> q.up[cs[k + 1]] == p.up[cs[k + 1]].(prev := before))
             && (forall c <- p.up :: c != cs[k] && (k == 0 || c != cs[k - 1]) && (k + 1 == |cs| || c != cs[k + 1]) ==>
                   q.up[c] == p.up[c])
             && q.down[n] == Down(if k == 0 then after else d.first, if k + 1 == |cs| then before else d.last,
                                  cs[..k] + cs[k + 1..])
             && forall m <- p.down :: m != n ==> q.down[m] == p.down[m]
    ensures q == Removed(p, n, k)
  {
    var r := Removed(p, n, k);
    var cs := p.down[n].children;
    if 0 < k < |cs| - 1 {
      assert cs[k - 1] != cs[k + 1];
    }
    assert q.up == r.up;
    assert q.down == r.down;
  }

  // ---------------------------------------------------------------- clearing

  /** All these nodes without a parent. */
  ghost function Orphaned(p: Pointers, cs: seq<XmlNode>): (q: Pointers)
    requires forall c <- cs :: c in p.up
  {
    Pointers(map c | c in p.up :: if c in cs then p.up[c].(parent := null) else p.up[c], p.down)
  }

  lemma NoOrphans(p: Pointers)
    ensures Orphaned(p, []) == p
  {
    assert Orphaned(p, []).up == p.up;
  }

  lemma OrphanKeys(p: Pointers, cs: seq<XmlNode>)
    requires forall c <- cs :: c in p.up
    ensures Orphaned(p, cs).up.Keys == p.up.Keys && Orphaned(p, cs).down == p.down
  {
  }

  lemma OrphanOne(p: Pointers, done: seq<XmlNode>, c: XmlNode)
    requires c in p.up && forall x <- done :: x in p.up
    ensures c in Orphaned(p, done).up
    ensures Orphaned(p, done + [c]) == WithParent(Orphaned(p, done), c, null)
    ensures Orphaned(p, done).up[c].next == p.up[c].next
  {
    assert Orphaned(p, done + [c]).up == WithParent(Orphaned(p, done), c, null).up;
  }

  lemma OrphanStep(p: Pointers, n: XmlNode, k: nat)
    requires Forest(p) && n in p.down && k < |p.down[n].children|
    ensures var cs := p.down[n].children;
            && (forall c <- cs :: c in p.up)
            && cs[k] in Orphaned(p, cs[..k]).up
            && Orphaned(p, cs[..k + 1]) == WithParent(Orphaned(p, cs[..k]), cs[k], null)
            && Orphaned(p, cs[..k]).up[cs[k]].next == (if k + 1 == |cs| then null else cs[k + 1])
  {
    hide Forest, Linked, Distinct, Orphaned, WithParent;
    ListNodes(p, n);
    PlaceFacts(p, n, k);
    var cs := p.down[n].children;
    assert cs[..k + 1] == cs[..k] + [cs[k]];
    OrphanOne(p, cs[..k], cs[k]);
  }

  /** The result of `remove_all_nodes`. */
  ghost function Emptied(p: Pointers, n: XmlNode): Pointers
    requires n in p.down && forall c <- p.down[n].children :: c in p.up
  {
    var q := Orphaned(p, p.down[n].children);
    q.(down := q.down[n := Down(null, q.down[n].last, [])])
  }

  lemma EmptiedWrites(p: Pointers, n: XmlNode)
    requires n in p.down && forall c <- p.down[n].children :: c in p.up
    ensures Emptied(p, n) == WithChildren(WithFirst(Orphaned(p, p.down[n].children), n, null), n, [])
  {
    hide Orphaned;
    OrphanKeys(p, p.down[n].children);
    var q := Orphaned(p, p.down[n].children);
    assert WithChildren(WithFirst(q, n, null), n, []).down == Emptied(p, n).down;
  }

  lemma EmptiedParts(p: Pointers, n: XmlNode)
    requires n in p.down && forall c <- p.down[n].children :: c in p.up
    ensures var q := Emptied(p, n);
            && q.up.Keys == p.up.Keys && q.down.Keys == p.down.Keys && n in q.down
            && q.down[n].children == [] && q.down[n].first == null
            && (forall m <- p.down :: m != n ==> q.down[m] == p.down[m])
            && forall c <- p.up :: q.up[c] == if c in p.down[n].children then p.up[c].(parent := null) else p.up[c]
  {
  }

  /** Emptying a list keeps the forest, and leaves all its nodes without a parent. */
  lemma EmptiedForest(p: Pointers, n: XmlNode)
    requires Forest(p) && n in p.down
    ensures (forall c <- p.down[n].children :: c in p.up) && Forest(Emptied(p, n)) && OnlyList(p, Emptied(p, n), n)
    ensures forall c <- p.down[n].children :: Emptied(p, n).up[c].parent == null
  {
    hide Forest, Distinct, Emptied, Linked;
    ListFacts(p, n);
    SameKeys(p);
    EmptiedParts(p, n);
    var cs := p.down[n].children;
    var q := Emptied(p, n);
    forall c <- p.up | q.up[c] != p.up[c] ensures p.up[c].parent == n && q.up[c].parent == null {
      var i :| 0 <= i < |cs| && cs[i] == c;
      assert UpIs(p.up[cs[i]], cs, i, n);
    }
    NoneDistinct();
    LinkedBy(q, n);
    Relinked(p, q, n);
  }

  lemma NoneDistinct()
    ensures Distinct([])
  {
  }

  /** The place `insert_node` puts a node at: that of `where`, or the end. */
  ghost function PlaceBefore(p: Pointers, n: XmlNode, where: XmlNode?): (k: nat)
    requires Forest(p) && n in p.down && (where != null ==> where in p.up && p.up[where].parent == n)
    ensures k <= |p.down[n].children|
    ensures where == null ==> k == |p.down[n].children|
    ensures where != null ==> k < |p.down[n].children| && p.down[n].children[k] == where
  {
    if where == null then |p.down[n].children| else PlaceOf(p, where)
  }

  lemma PlaceIsFirst(p: Pointers, n: XmlNode, where: XmlNode?)
    requires Forest(p) && n in p.down && (where != null ==> where in p.up && p.up[where].parent == n)
    ensures where == p.down[n].first <==> PlaceBefore(p, n, where) == 0
  {
    hide Forest;
    ListNodes(p, n);
    if where != null {
      PlaceFacts(p, n, PlaceBefore(p, n, where));
    }
  }

  /** The pointer writes of `prepend_node`. */
  lemma PrependWrites(p: Pointers, n: XmlNode, child: XmlNode)
    requires Forest(p) && n in p.down && child in p.up && p.up[child].parent == null
    ensures var d := p.down[n];
            var cs := d.children;
            (d.first != null ==> d.first in p.up)
            && Inserted(p, n, 0, child)
            == WithChildren(WithPrev(WithParent(WithFirst(
                 if d.first != null then WithPrev(WithNext(p, child, d.first), d.first, child)
                 else WithLast(WithNext(p, child, null), n, child),
                 n, child), child, n), child, null), n, cs[..0] + [child] + cs[0..])
  {
    hide Forest, Inserted;
    ListNodes(p, n);
    NotListed(p, n, child);
    var d := p.down[n];
    var cs := d.children;
    var q := if d.first != null then WithPrev(WithNext(p, child, d.first), d.first, child)
             else WithLast(WithNext(p, child, null), n, child);
    var r := WithChildren(WithPrev(WithParent(WithFirst(q, n, child), child, n), child, null), n,
                          cs[..0] + [child] + cs[0..]);
    IsInserted(p, r, n, 0, child);
  }

  /** The pointer writes of `append_node`. */
  lemma AppendWrites(p: Pointers, n: XmlNode, child: XmlNode)
    requires Forest(p) && n in p.down && child in p.up && p.up[child].parent == null
    ensures var d := p.down[n];
            var cs := d.children;
            (d.first != null ==> d.last != null && d.last in p.up)
            && Inserted(p, n, |cs|, child)
            == WithChildren(WithNext(WithParent(WithLast(
                 if d.first != null then WithNext(WithPrev(p, child, d.last), d.last, child)
                 else WithFirst(WithPrev(p, child, null), n, child),
                 n, child), child, n), child, null), n, cs[..|cs|] + [child] + cs[|cs|..])
  {
    hide Forest, Inserted;
    ListNodes(p, n);
    NotListed(p, n, child);
    var d := p.down[n];
    var cs := d.children;
    var q := if d.first != null then WithNext(WithPrev(p, child, d.last), d.last, child)
             else WithFirst(WithPrev(p, child, null), n, child);
    var r := WithChildren(WithNext(WithParent(WithLast(q, n, child), child, n), child, null), n,
                          cs[..|cs|] + [child] + cs[|cs|..]);
    IsInserted(p, r, n, |cs|, child);
  }

  /** The pointer writes of `insert_node` in the middle of a list. */
  lemma InsertWrites(p: Pointers, n: XmlNode, k: nat, child: XmlNode)
    requires Forest(p) && n in p.down && 0 < k < |p.down[n].children| && child in p.up && p.up[child].parent == null
    ensures var cs := p.down[n].children;
            cs[k - 1] in p.up && cs[k] in p.up
            && Inserted(p, n, k, child)
            == WithChildren(WithParent(WithPrev(WithNext(WithNext(WithPrev(p, child, cs[k - 1]), child, cs[k]),
                 cs[k - 1], child), cs[k], child), child, n), n, cs[..k] + [child] + cs[k..])
  {
    hide Forest, Inserted;
    ListNodes(p, n);
    NotListed(p, n, child);
    PlaceFacts(p, n, k);
    var cs := p.down[n].children;
    var q := WithPrev(WithNext(WithNext(WithPrev(p, child, cs[k - 1]), child, cs[k]), cs[k - 1], child), cs[k], child);
    var r := WithChildren(WithParent(q, child, n), n, cs[..k] + [child] + cs[k..]);
    IsInserted(p, r, n, k, child);
  }

  function WithParent(p: Pointers, n: XmlNode, x: XmlNode?): Pointers
    requires n in p.up
  {
    p.(up := p.up[n := p.up[n].(parent := x)])
  }

  function WithPrev(p: Pointers, n: XmlNode, x: XmlNode?): Pointers
    requires n in p.up
  {
    p.(up := p.up[n := p.up[n].(prev := x)])
  }

  function WithNext(p: Pointers, n: XmlNode, x: XmlNode?): Pointers
    requires n in p.up
  {
    p.(up := p.up[n := p.up[n].(next := x)])
  }

  function WithFirst(p: Pointers, n: XmlNode, x: XmlNode?): Pointers
    requires n in p.down
  {
    p.(down := p.down[n := p.down[n].(first := x)])
  }

  function WithLast(p: Pointers, n: XmlNode, x: XmlNode?): Pointers
    requires n in p.down
  {
    p.(down := p.down[n := p.down[n].(last := x)])
  }

  ghost function WithChildren(p: Pointers, n: XmlNode, cs: seq<XmlNode>): Pointers
    requires n in p.down
  {
    p.(down := p.down[n := p.down[n].(children := cs)])
  }

  /** A node's fields are its entries. */
  lemma Fields(world: set<XmlNode>, n: XmlNode)
    requires n in world
    ensures var p := PointersOf(world);
            && p.up.Keys == p.down.Keys == world
            && p.up[n] == Up(n.parent, n.prevSibling, n.nextSibling)
            && p.down[n] == Down(n.firstNode, n.lastNode, n.children)
  {
  }

  /** The place of a node in its parent's list. */
  ghost function PlaceOf(p: Pointers, c: XmlNode): (k: nat)
    requires Forest(p) && c in p.up && p.up[c].parent != null
    ensures p.up[c].parent in p.down
    ensures k < |p.down[p.up[c].parent].children| && p.down[p.up[c].parent].children[k] == c
  {
    var cs := p.down[p.up[c].parent].children;
    var k :| 0 <= k < |cs| && cs[k] == c;
    k
  }

  /** The neighbours of the node at place `k`. */
  lemma PlaceFacts(p: Pointers, n: XmlNode, k: nat)
    requires Forest(p) && n in p.down && k < |p.down[n].children|
    ensures var cs := p.down[n].children;
            && cs[k] in p.up && UpIs(p.up[cs[k]], cs, k, n)
            && (k > 0 ==> cs[k - 1] in p.up && cs[k - 1] != cs[k])
            && (k + 1 < |cs| ==> cs[k + 1] in p.up && cs[k + 1] != cs[k])
            && (0 < k < |cs| - 1 ==> cs[k - 1] != cs[k + 1])
            && (p.down[n].first == cs[k] <==> k == 0)
            && (p.down[n].last == cs[k] <==> k + 1 == |cs|)
  {
    assert Linked(p, n);
  }

  ghost function PointersOf(world: set<XmlNode>): Pointers
    reads world
  {
    Pointers(map n | n in world :: Up(n.parent, n.prevSibling, n.nextSibling),
             map n | n in world :: Down(n.firstNode, n.lastNode, n.children))
  }

  /** The nodes a list's pointers lead to. */
  lemma ListNodes(p: Pointers, n: XmlNode)
    requires Forest(p) && n in p.down
    ensures var d := p.down[n];
            && (d.first == null <==> d.children == [])
            && (d.children != [] ==> d.first == d.children[0] && d.last == d.children[|d.children| - 1])
            && (forall c <- d.children :: c in p.up)
            && Distinct(d.children)
  {
    assert Linked(p, n);
  }

  /** Pointers that changed just so are those of the insertion. */
  lemma IsInserted(p: Pointers, q: Pointers, n: XmlNode, k: nat, child: XmlNode)
    requires n in p.down && child in p.up && child !in p.down[n].children && k <= |p.down[n].children|
    requires (forall c <- p.down[n].children :: c in p.up) && Distinct(p.down[n].children)
    requires q.up.Keys == p.up.Keys && q.down.Keys == p.down.Keys
    requires var cs := p.down[n].children;
             var d := p.down[n];
             && q.up[child] == Up(n, if k == 0 then null else cs[k - 1], if k == |cs| then null else cs[k])
             && (k > 0 ==> q.up[cs[k - 1]] == p.up[cs[k - 1]].(next := child))
             && (k < |cs| ==> q.up[cs[k]] == p.up[cs[k]].(prev := child))
             && (forall c <- p.up :: c != child && (k == 0 || c != cs[k - 1]) && (k == |cs| || c != cs[k]) ==>
                   q.up[c] == p.up[c])
             && q.down[n] == Down(if k == 0 then child else d.first, if k == |cs| then child else d.last,
                                  cs[..k] + [child] + cs[k..])
             && forall m <- p.down :: m != n ==> q.down[m] == p.down[m]
    ensures q == Inserted(p, n, k, child)
  {
    var r := Inserted(p, n, k, child);
    var cs := p.down[n].children;
    if 0 < k < |cs| {
      assert cs[k - 1] != cs[k];
    }
    assert q.up == r.up;
    assert q.down == r.down;
  }
}
