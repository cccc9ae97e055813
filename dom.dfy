/**
 * The live document tree and the in-place reconciler `diffAndPatch`
 * (SRC/AZCore.js:155-245), proved to compute the value-level
 * `Reconcile.Patch` / `Reconcile.Walk`.
 */
module Dom {
  import opened Reconcile

  datatype Kind = TextNode | ElementNode

  /** A live DOM node. */
  class Node {
    const kind: Kind
    /** `nodeName`: the tag name of an element, `#text` for a text node. */
    const name: string
    /** Whether the node matches one of the preserve selectors. */
    const keep: bool
    /** `textContent` of a text node. */
    var text: string
    var attrs: map<string, string>
    var checked: bool
    var disabled: bool
    var selected: bool
    var children: seq<Node>
    /** The nodes of this subtree. */
    ghost var repr: set<Node>

    /**
     * The subtree rooted here is a tree: `repr` is this node and the
     * subtrees of its children, the children head disjoint valid subtrees,
     * and a text node has no children.
     */
    ghost predicate Valid()
      reads this`repr, this`children, repr`repr, repr`children
      decreases repr, 0
    {
      && this in repr
      && (forall i :: 0 <= i < |children| ==> children[i] in repr)
      && repr == {this} + Reprs(children)
      && this !in Reprs(children)
      && Forest(children)
      && (kind == TextNode ==> name == "#text" && children == [])
    }

    /** The value this subtree currently holds. */
    ghost function Model(): (t: Tree<Node>)
      reads this, repr
      requires Valid()
      ensures t.id == this
      ensures t.Text? <==> kind == TextNode
      ensures t.Element? ==> t.name == name && t.keep == keep
      decreases repr, 1
    {
      if kind == TextNode then Text(this, text)
      else Element(this, name, keep, attrs, Props(checked, disabled, selected), Models(children))
    }

    /** `Node.contains`: `x` is this node or one of its descendants. */
    function Contains(x: Node): (b: bool)
      reads this`repr, this`children, repr`repr, repr`children
      requires Valid()
      ensures b <==> x in repr
      decreases repr, 1
    {
      x == this || ContainsIn(children, x)
    }

    /**
     * "Update existing attributes & add new ones" (SRC/AZCore.js:190-195):
     * every attribute of `from` whose value differs is set, and only those:
     * `written` are the names passed to `setAttribute`, each once.
     */
    method SetAttributes(from: map<string, string>) returns (ghost written: set<string>)
      modifies this`attrs
      ensures attrs == old(attrs) + from
      ensures written == set k | k in from && (k !in old(attrs) || old(attrs)[k] != from[k])
    {
      written := {};
      var names := from.Keys;
      while names != {}
        invariant names <= from.Keys
        invariant attrs == old(attrs) + map k | k in from && k !in names :: from[k]
        invariant written == set k | k in from && k !in names && (k !in old(attrs) || old(attrs)[k] != from[k])
        decreases names
      {
        var name :| name in names;
        assert (name in attrs <==> name in old(attrs)) && (name in attrs ==> attrs[name] == old(attrs)[name]);
        if name !in attrs || attrs[name] != from[name] {
          attrs := attrs[name := from[name]];
          written := written + {name};
        }
        names := names - {name};
      }
    }

    /**
     * "Remove attributes that no longer exist" (SRC/AZCore.js:196-201): over a
     * snapshot of the current names, every attribute absent from `keepOnly`
     * is removed; `removed` are the names passed to `removeAttribute`.
     */
    method RemoveAttributes(keepOnly: map<string, string>) returns (ghost removed: set<string>)
      modifies this`attrs
      ensures attrs == map k | k in old(attrs) && k in keepOnly :: old(attrs)[k]
      ensures removed == set k | k in old(attrs) && k !in keepOnly
    {
      removed := {};
      var names := attrs.Keys;
      while names != {}
        invariant names <= old(attrs).Keys
        invariant attrs == map k | k in old(attrs) && (k in names || k in keepOnly) :: old(attrs)[k]
        invariant removed == set k | k in old(attrs) && k !in names && k !in keepOnly
        decreases names
      {
        var name :| name in names;
        if name !in keepOnly {
          attrs := attrs - {name};
          removed := removed + {name};
        }
        names := names - {name};
      }
    }
  }

  /** The nodes of all the subtrees rooted in `cs`. */
  ghost function Reprs(cs: seq<Node>): (r: set<Node>)
    reads cs`repr
    ensures forall i :: 0 <= i < |cs| ==> cs[i] in r
  {
    if cs == [] then {} else {cs[0]} + cs[0].repr + Reprs(cs[1..])
  }

  /** `cs` heads valid, pairwise disjoint subtrees. */
  ghost predicate Forest(cs: seq<Node>)
    reads cs`repr, cs`children, Reprs(cs)`repr, Reprs(cs)`children
    decreases Reprs(cs), 1, |cs|
  {
    cs == [] || (cs[0].Valid() && cs[0].repr !! Reprs(cs[1..]) && Forest(cs[1..]))
  }

  /** The snapshots of the subtrees headed by `cs`. */
  ghost function Models(cs: seq<Node>): (ts: seq<Tree<Node>>)
    reads cs, Reprs(cs)
    requires Forest(cs)
    ensures |ts| == |cs|
    decreases Reprs(cs), 2, |cs|
  {
    if cs == [] then [] else [cs[0].Model()] + Models(cs[1..])
  }

  /** Some subtree headed by `cs` contains `x`. */
  function ContainsIn(cs: seq<Node>, x: Node): (b: bool)
    reads cs`repr, cs`children, Reprs(cs)`repr, Reprs(cs)`children
    requires Forest(cs)
    ensures b <==> x in Reprs(cs)
    decreases Reprs(cs), 2, |cs|
  {
    cs != [] && (cs[0].Contains(x) || ContainsIn(cs[1..], x))
  }

  lemma {:induction false} ForestAppend(cs: seq<Node>, x: Node)
    requires Forest(cs) && x.Valid() && x.repr !! Reprs(cs)
    ensures Forest(cs + [x])
    ensures Reprs(cs + [x]) == Reprs(cs) + x.repr
    ensures Models(cs + [x]) == Models(cs) + [x.Model()]
    decreases |cs|
  {
    if cs == [] {
      assert [] + [x] == [x];
    } else {
      assert (cs + [x])[1..] == cs[1..] + [x];
      ForestAppend(cs[1..], x);
    }
  }

  predicate SimilarNodes(a: Node, b: Node) {
    a.kind == b.kind && a.name == b.name
  }

  predicate PreservedNode(n: Node) {
    n.kind == ElementNode && n.keep
  }

  /** The subtree of every child lies in the forest's nodes. */
  lemma {:induction false} ReprsHas(cs: seq<Node>, k: nat)
    requires k < |cs|
    ensures cs[k].repr <= Reprs(cs)
  {
    if k > 0 {
      assert cs[1..][k - 1] == cs[k];
      ReprsHas(cs[1..], k - 1);
    }
  }

  /** Two forests with disjoint nodes make one forest. */
  lemma {:induction false} ForestConcat(a: seq<Node>, b: seq<Node>)
    requires Forest(a) && Forest(b) && Reprs(a) !! Reprs(b)
    ensures Forest(a + b) && Reprs(a + b) == Reprs(a) + Reprs(b)
    decreases |a|
  {
    if a == [] {
      assert a + b == b;
    } else {
      Uncons(a);
      assert (a + b)[0] == a[0] && (a + b)[1..] == a[1..] + b;
      ForestConcat(a[1..], b);
    }
  }

  /** The nodes of two forests side by side. */
  lemma {:induction false} ReprsConcat(a: seq<Node>, b: seq<Node>)
    ensures Reprs(a + b) == Reprs(a) + Reprs(b)
    decreases |a|
  {
    if a == [] {
      assert a + b == b;
    } else {
      assert (a + b)[0] == a[0] && (a + b)[1..] == a[1..] + b;
      ReprsConcat(a[1..], b);
    }
  }

  /** The two halves of a forest are disjoint forests. */
  lemma {:induction false} ForestParts(a: seq<Node>, b: seq<Node>)
    requires Forest(a + b)
    ensures Forest(a) && Forest(b) && Reprs(a) !! Reprs(b)
    decreases |a|
  {
    if a == [] {
      assert a + b == b;
    } else {
      assert (a + b)[0] == a[0] && (a + b)[1..] == a[1..] + b;
      ForestParts(a[1..], b);
      ReprsConcat(a[1..], b);
    }
  }

  /** A forest cut at its `k`-th tree: the trees before it, that tree and the trees after it. */
  lemma ForestSplit(cs: seq<Node>, k: nat)
    requires Forest(cs) && k < |cs|
    ensures Forest(cs[..k]) && cs[k].Valid() && Forest(cs[k + 1..])
    ensures Reprs(cs) == Reprs(cs[..k]) + cs[k].repr + Reprs(cs[k + 1..])
    ensures Reprs(cs[..k]) !! cs[k].repr && Reprs(cs[..k]) !! Reprs(cs[k + 1..]) && cs[k].repr !! Reprs(cs[k + 1..])
    ensures cs[k] !in cs[..k]
  {
    var before, tail, after := cs[..k], cs[k..], cs[k + 1..];
    assert cs == before + tail;
    ForestParts(before, tail);
    ReprsConcat(before, tail);
    ForestHead(tail);
    assert tail[0] == cs[k] && tail[1..] == after;
    assert cs[k] in cs[k].repr && cs[k] !in Reprs(before);
  }

  /** The first tree of a forest, apart from the rest. */
  lemma ForestHead(cs: seq<Node>)
    requires Forest(cs) && cs != []
    ensures cs[0].Valid() && Forest(cs[1..]) && cs[0].repr !! Reprs(cs[1..])
    ensures Reprs(cs) == cs[0].repr + Reprs(cs[1..])
  {
    assert cs[0] in cs[0].repr;
  }

  /** A sequence is its elements before `k`, its `k`-th element and its elements after `k`. */
  lemma Cut<T>(cs: seq<T>, k: nat)
    requires k < |cs|
    ensures cs == cs[..k] + [cs[k]] + cs[k + 1..]
  {
  }

  /** `parent` takes the forest `cs` as its children; its subtree is then `parent` and that forest. */
  method Adopt(parent: Node, cs: seq<Node>)
    requires parent.kind == ElementNode && Forest(cs) && parent !in Reprs(cs)
    modifies parent`children, parent`repr
    ensures parent.Valid() && parent.children == cs && parent.repr == {parent} + Reprs(cs)
  {
    parent.children := cs;
    parent.repr := {parent} + Reprs(cs);
  }

  /** `parent`'s subtree recomputed after one of its children's subtrees changed. */
  method Regather(parent: Node)
    requires parent.kind == ElementNode && Forest(parent.children) && parent !in Reprs(parent.children)
    modifies parent`repr
    ensures parent.Valid() && parent.repr == {parent} + Reprs(parent.children)
  {
    parent.repr := {parent} + Reprs(parent.children);
  }

  /** `parent.appendChild(x)` of a node outside the parent's subtree: `x` becomes the last child. */
  method AppendChild(parent: Node, x: Node)
    requires parent.Valid() && parent.kind == ElementNode && x.Valid() && x.repr !! parent.repr
    modifies parent`children, parent`repr
    ensures parent.Valid() && parent.children == old(parent.children) + [x]
    ensures parent.repr == old(parent.repr) + x.repr
  {
    ForestAppend(parent.children, x);
    Adopt(parent, parent.children + [x]);
  }

  /** `parent.removeChild(x)` of a child `x`: it leaves with its whole subtree. */
  method RemoveChild(parent: Node, x: Node)
    requires parent.Valid() && parent.kind == ElementNode && x in parent.children
    modifies parent`children, parent`repr
    ensures parent.Valid() && parent.children == Drop(old(parent.children), x)
    ensures parent.repr == old(parent.repr) - x.repr
  {
    var cs := parent.children;
    ghost var k :| 0 <= k < |cs| && cs[k] == x;
    ForestRemoved(cs, k);
    ReprsHas(cs, k);
    assert parent !in x.repr;
    Adopt(parent, Drop(cs, x));
  }

  /** `parent.replaceChild(y, x)` of a child `x` by a node `y` from outside the parent's subtree. */
  method ReplaceChild(parent: Node, y: Node, x: Node)
    requires parent.Valid() && parent.kind == ElementNode && x in parent.children && y.Valid() && y.repr !! parent.repr
    modifies parent`children, parent`repr
    ensures parent.Valid() && parent.children == Put(old(parent.children), x, y)
    ensures parent.repr == old(parent.repr) - x.repr + y.repr
  {
    var cs := parent.children;
    ghost var k :| 0 <= k < |cs| && cs[k] == x;
    ForestReplaced(cs, k, y);
    ReprsHas(cs, k);
    assert parent !in x.repr && parent !in y.repr;
    Adopt(parent, Put(cs, x, y));
  }

  /** A forest without its `k`-th tree is a forest of the remaining nodes. */
  lemma ForestRemoved(cs: seq<Node>, k: nat)
    requires Forest(cs) && k < |cs|
    ensures Forest(Drop(cs, cs[k]))
    ensures Reprs(Drop(cs, cs[k])) == Reprs(cs) - cs[k].repr
  {
    var x, before, after := cs[k], cs[..k], cs[k + 1..];
    ForestSplit(cs, k);
    Cut(cs, k);
    DropAt(before, x, after);
    ForestConcat(before, after);
  }

  /** A forest with its `k`-th tree replaced by a disjoint one is a forest of the exchanged nodes. */
  lemma ForestReplaced(cs: seq<Node>, k: nat, y: Node)
    requires Forest(cs) && k < |cs| && y.Valid() && y.repr !! Reprs(cs)
    ensures Forest(Put(cs, cs[k], y))
    ensures Reprs(Put(cs, cs[k], y)) == Reprs(cs) - cs[k].repr + y.repr
  {
    var x, before, after := cs[k], cs[..k], cs[k + 1..];
    ForestSplit(cs, k);
    Cut(cs, k);
    PutAt(before, x, y, after);
    ForestAppend(before, y);
    ForestConcat(before + [y], after);
    calc {
      Reprs(Put(cs, x, y));
      Reprs(before) + y.repr + Reprs(after);
      { assert Reprs(cs) - x.repr == Reprs(before) + Reprs(after); }
      Reprs(cs) - x.repr + y.repr;
    }
  }

  /** The `k`-th child's subtree of a valid node, apart from its siblings' subtrees and from the node. */
  lemma ChildApart(parent: Node, k: nat)
    requires parent.Valid() && k < |parent.children|
    ensures var cs := parent.children;
      && Forest(cs[..k]) && Forest(cs[k + 1..]) && Reprs(cs[..k]) !! Reprs(cs[k + 1..])
      && cs == cs[..k] + [cs[k]] + cs[k + 1..]
      && Reprs(cs[..k]) + Reprs(cs[k + 1..]) <= parent.repr - {parent}
      && parent !in cs[k].repr && cs[k].repr <= parent.repr
      && cs[k].repr !! Reprs(cs[..k]) + Reprs(cs[k + 1..])
  {
    ForestSplit(parent.children, k);
    Cut(parent.children, k);
  }

  /** The recursive patch of a child `o` of `parent`, after which `parent`'s subtree is recomputed. */
  method PatchChild(parent: Node, o: Node, n: Node) returns (ghost wrote: bool)
    requires parent.Valid() && parent.kind == ElementNode && o in parent.children && o.Valid()
    requires n.Valid() && n.repr !! parent.repr
    requires SimilarNodes(o, n) && !PreservedNode(o)
    modifies o.repr, parent`repr
    ensures parent.Valid() && parent.children == old(parent.children)
    ensures o.Valid() && o.Model() == Reconcile.Patch(old(o.Model()), old(n.Model()))
    ensures wrote <==> !Quiet(old(o.Model()), old(n.Model()))
  {
    var cs := parent.children;
    ghost var k :| 0 <= k < |cs| && cs[k] == o;
    ghost var before, after := cs[..k], cs[k + 1..];
    ChildApart(parent, k);
    ghost var others := Reprs(before) + Reprs(after);
    assert parent in parent.repr;
    wrote := PatchNode(o, n);
    Regrown(before, o, after, others);
    label patched:
    Regather(parent);
    NodeFrame@patched(o, o.repr);
  }

  /**
   * `diffAndPatch(parent, oldNode, newNode)` (SRC/AZCore.js:155-245), with
   * `null` for a missing node.  `faulted` is the DOM exception the guards
   * can raise, and nothing has changed then: `appendChild(null)` when both
   * nodes are missing, `removeChild`/`replaceChild` of an old node that is
   * not a child of `parent` (NotFoundError), and `appendChild` to a text
   * node or of a preserved old node that is an ancestor of `parent`
   * (HierarchyRequestError).  `wrote` says whether the document was written
   * to.  A non-preserved old node given as its own new node is left alone:
   * see the README's findings.
   */
  method DiffAndPatch(parent: Node, o: Node?, n: Node?) returns (faulted: bool, ghost wrote: bool)
    requires parent.Valid()
    requires o != null ==> o.Valid()
    requires n != null ==> n.Valid()
    // a new node other than the old one lies outside the parent's and the old node's subtrees
    requires n != null && n != o ==> n.repr !! parent.repr
    requires o != null && n != null && n != o ==> o.repr !! n.repr
    // two subtrees of one document are nested or disjoint
    requires o != null ==> o in parent.repr || parent in o.repr || o.repr !! parent.repr
    modifies parent`children, parent`repr
    modifies if o != null && n != null && o != n && !PreservedNode(o) && SimilarNodes(o, n) then o.repr else {}
    // no old node: the new node becomes the parent's last child
    ensures o == null ==>
      && faulted == (n == null || parent.kind == TextNode) && wrote == !faulted
      && parent.children == old(parent.children) + (if faulted then [] else [n])
    // no new node: the old node is removed exactly when it is not preserved
    ensures o != null && n == null ==>
      if PreservedNode(o) then !faulted && !wrote && parent.children == old(parent.children)
      else faulted == (o !in old(parent.children)) && wrote == !faulted
           && parent.children == Drop(old(parent.children), o)
    // a preserved old node stays, and is re-appended when the parent does not contain it
    ensures o != null && n != null && PreservedNode(o) ==>
      if o in old(parent.repr) then !faulted && !wrote && parent.children == old(parent.children)
      else if parent in old(o.repr) || parent.kind == TextNode then faulted && !wrote && parent.children == old(parent.children)
      else !faulted && wrote && parent.children == old(parent.children) + [o]
    // the old node given again as the new one: nothing is written
    ensures o != null && n == o && !PreservedNode(o) ==> !faulted && !wrote && parent.children == old(parent.children)
    // a different type or name: the new node takes the old node's place
    ensures o != null && n != null && n != o && !PreservedNode(o) && !SimilarNodes(o, n) ==>
      && faulted == (o !in old(parent.children)) && wrote == !faulted
      && parent.children == Put(old(parent.children), o, n)
    // otherwise the old node is patched in place, writing only where it differs
    ensures o != null && n != null && n != o && !PreservedNode(o) && SimilarNodes(o, n) ==>
      && !faulted && o.Valid()
      && o.Model() == Reconcile.Patch(old(o.Model()), old(n.Model()))
      && (wrote <==> !Quiet(old(o.Model()), old(n.Model())))
      && (parent !in old(o.repr) ==> parent.children == old(parent.children))
    // the parent's subtree stays well formed, unless a patched old node lies deeper inside it
    ensures !(o != null && n != null && n != o && !PreservedNode(o) && SimilarNodes(o, n)) ==> parent.Valid()
    ensures (&& o != null && n != null && n != o && !PreservedNode(o) && SimilarNodes(o, n)
             && old(o in parent.children || o == parent || o.repr !! parent.repr)) ==> parent.Valid()
  {
    faulted, wrote := false, false;
    if o == null {
      if n == null || parent.kind == TextNode {
        faulted := true;
      } else {
        AppendChild(parent, n);
        wrote := true;
      }
    } else if n == null {
      if !PreservedNode(o) {
        if o in parent.children {
          RemoveChild(parent, o);
          wrote := true;
        } else {
          faulted := true;
        }
      }
    } else if PreservedNode(o) {
      if !parent.Contains(o) {
        if o.Contains(parent) || parent.kind == TextNode {
          faulted := true;
        } else {
          AppendChild(parent, o);
          wrote := true;
        }
      }
    } else if o == n {
    } else if !SimilarNodes(o, n) {
      if o in parent.children {
        ReplaceChild(parent, n, o);
        wrote := true;
      } else {
        faulted := true;
      }
    } else if o in parent.children {
      wrote := PatchChild(parent, o, n);
    } else {
      wrote := PatchNode(o, n);
    }
  }


  /**
   * `diffAndPatch(parent, o, n)` once the guards have let a similar, not
   * preserved old node through (SRC/AZCore.js:178-244): the old node is
   * updated in place to mirror the new one, and the result is exactly the
   * value-level `Reconcile.Patch` of the two snapshots.  New children that
   * are appended or substituted become part of the old tree.
   */
  method PatchNode(o: Node, n: Node) returns (ghost wrote: bool)
    requires o.Valid() && n.Valid() && o.repr !! n.repr
    requires SimilarNodes(o, n) && !PreservedNode(o)
    modifies o.repr
    decreases n.repr, 3
    ensures o.Valid()
    ensures o.repr <= old(o.repr) + n.repr
    ensures o.Model() == Reconcile.Patch(old(o.Model()), old(n.Model()))
    ensures wrote <==> !Quiet(old(o.Model()), old(n.Model()))
    // against a freshly built tree of the same shape nothing is written
    ensures WellBuilt(old(n.Model())) && SameShape(old(o.Model()), old(n.Model())) ==>
      !wrote && o.Model() == old(o.Model())
  {
    ghost var before, incoming := o.Model(), n.Model();
    if o.kind == TextNode {
      wrote := PatchText(o, n);
    } else {
      wrote := PatchElement(o, n);
    }
    if WellBuilt(incoming) && SameShape(before, incoming) {
      PatchIdentical(before, incoming);
    }
  }

  /**
   * A text node takes the new text, written only when it differs
   * (SRC/AZCore.js:179-184): `wrote` records the write.
   */
  method PatchText(o: Node, n: Node) returns (ghost wrote: bool)
    requires o.Valid() && n.Valid() && o.repr !! n.repr
    requires SimilarNodes(o, n) && o.kind == TextNode
    modifies o`text
    ensures o.Valid() && o.text == n.text
    ensures o.Model() == Reconcile.Patch(old(o.Model()), old(n.Model()))
    ensures wrote <==> old(o.text) != n.text
  {
    wrote := false;
    if o.text != n.text {
      o.text := n.text;
      wrote := true;
    }
  }

  /** An element takes the new attributes, properties and children (SRC/AZCore.js:186-244). */
  method PatchElement(o: Node, n: Node) returns (ghost wrote: bool)
    requires o.Valid() && n.Valid() && o.repr !! n.repr
    requires SimilarNodes(o, n) && !PreservedNode(o) && o.kind == ElementNode
    modifies o.repr
    decreases n.repr, 2
    ensures o.Valid()
    ensures o.repr <= old(o.repr) + n.repr
    ensures o.Model() == Reconcile.Patch(old(o.Model()), old(n.Model()))
    ensures wrote <==> !Quiet(old(o.Model()), old(n.Model()))
  {
    ghost var before, incoming := o.Model(), n.Model();
    var attrsWritten := SyncAttributes(o, n);
    assert o.Valid() && Models(o.children) == before.children && Models(n.children) == incoming.children;
    var childrenWritten := PatchChildren(o, n);
    wrote := attrsWritten || childrenWritten;
    assert o.Model() == Element(o, o.name, o.keep, incoming.attrs, PropsOf(incoming.attrs), Walk(before.children, incoming.children));
    assert Quiet(before, incoming) <==> before.attrs == incoming.attrs && QuietWalk(before.children, incoming.children);
  }

  /**
   * The attribute and property updates of SRC/AZCore.js:186-206: the old
   * element ends up with exactly the new attribute map, and its
   * `checked`, `disabled` and `selected` properties follow the presence of
   * the attribute of the same name.  On a form control the source's
   * `disabled` assignment also rewrites that attribute; this method leaves
   * it as the new node has it (see `Reconcile.SyncedAsWritten`).
   */
  method SyncAttributes(o: Node, n: Node) returns (ghost wrote: bool)
    requires o != n
    modifies o`attrs, o`checked, o`disabled, o`selected
    ensures o.attrs == n.attrs
    ensures Props(o.checked, o.disabled, o.selected) == PropsOf(n.attrs)
    ensures wrote <==> old(o.attrs) != n.attrs
  {
    var from := n.attrs;
    ghost var before := o.attrs;
    ghost var written := o.SetAttributes(from);
    ghost var removed := o.RemoveAttributes(from);
    SetThenPrune(before, from);
    o.checked := "checked" in from;
    o.disabled := "disabled" in from;
    o.selected := "selected" in from;
    wrote := written != {} || removed != {};
    NoWritesIffEqual(before, from, written, removed);
  }

  /** Setting every attribute of `from` and then removing those not in `from` leaves exactly `from`. */
  lemma SetThenPrune(before: map<string, string>, from: map<string, string>)
    ensures (map k | k in before + from && k in from :: (before + from)[k]) == from
  {
  }

  /** Nothing is set and nothing removed exactly when the two attribute maps are already equal. */
  lemma NoWritesIffEqual(before: map<string, string>, from: map<string, string>, written: set<string>, removed: set<string>)
    requires written == set k | k in from && (k !in before || before[k] != from[k])
    requires removed == set k | k in before + from && k !in from
    ensures written == {} && removed == {} <==> before == from
  {
    if written == {} && removed == {} {
      forall k | k in from ensures k in before && before[k] == from[k] {
        assert k !in written;
      }
      forall k | k in before ensures k in from {
        assert k !in removed;
      }
    } else if written != {} {
      var k :| k in written;
    } else {
      var k :| k in removed;
    }
  }

  /**
   * The two-cursor child walk of SRC/AZCore.js:207-243: the children of the
   * old element become `Reconcile.Walk` of the old and the new children.
   */
  method PatchChildren(o: Node, n: Node) returns (ghost wrote: bool)
    requires o.Valid() && n.Valid() && o.repr !! n.repr && o.kind == ElementNode
    modifies o.repr
    decreases n.repr, 1
    ensures o.Valid() && o.repr <= old(o.repr) + n.repr
    ensures unchanged(o`attrs, o`checked, o`disabled, o`selected)
    ensures Models(o.children) == Walk(old(Models(o.children)), old(Models(n.children)))
    ensures wrote <==> !QuietWalk(old(Models(o.children)), old(Models(n.children)))
  {
    var olds, news := o.children, n.children;
    ghost var origin, incoming := o.repr, n.repr - {n};
    ghost var target := Walk(Models(olds), Models(news));
    ghost var quiet := QuietWalk(Models(olds), Models(news));
    WalkStart(o, n);
    ghost var done;
    done, wrote := WalkChildren(o, origin, incoming, target, olds, news, quiet);
    Finish(o, origin, incoming, target, olds, news, |olds|, |news|, done);
  }

  /**
   * The loop of SRC/AZCore.js:209-243 over the snapshots `olds` and `news`
   * of the old and the new children; `done` are the children it placed,
   * and `wrote` says whether it appended, removed, replaced or patched
   * anything, which it does exactly when the walk is not `quiet`.
   */
  method WalkChildren(o: Node, ghost origin: set<Node>, ghost incoming: set<Node>, ghost target: seq<Tree<Node>>,
                      olds: seq<Node>, news: seq<Node>, ghost quiet: bool) returns (ghost done: seq<Node>, ghost wrote: bool)
    requires Inv(o, origin, incoming, target, olds, news, 0, 0, [])
    requires quiet == QuietWalk(Models(olds[0..]), Models(news[0..]))
    modifies origin - {o}, o`children
    decreases incoming, 7
    ensures Inv(o, origin, incoming, target, olds, news, |olds|, |news|, done)
    ensures unchanged(o`repr, o`attrs, o`checked, o`disabled, o`selected)
    ensures wrote <==> !quiet
  {
    done, wrote := [], false;
    var i, j := 0, 0;
    while i < |olds| || j < |news|
      invariant 0 <= i <= |olds| && 0 <= j <= |news|
      invariant Inv(o, origin, incoming, target, olds, news, i, j, done)
      invariant unchanged(o`repr, o`attrs, o`checked, o`disabled, o`selected)
      invariant quiet == (!wrote && QuietWalk(Models(olds[i..]), Models(news[j..])))
      decreases |olds| - i + |news| - j
    {
      ghost var stepWrote;
      i, j, done, stepWrote := WalkStep(o, origin, incoming, target, olds, news, i, j, done);
      wrote := wrote || stepWrote;
    }
    assert olds[i..] == [] && news[j..] == [];
  }

  /** One round of the child walk of SRC/AZCore.js:209-242. */
  method WalkStep(o: Node, ghost origin: set<Node>, ghost incoming: set<Node>, ghost target: seq<Tree<Node>>,
                  olds: seq<Node>, news: seq<Node>, i: int, j: int, ghost done: seq<Node>)
      returns (i': int, j': int, ghost done': seq<Node>, ghost wrote: bool)
    requires Inv(o, origin, incoming, target, olds, news, i, j, done) && (i < |olds| || j < |news|)
    modifies origin - {o}, o`children
    decreases incoming, 6
    ensures unchanged(o`repr, o`attrs, o`checked, o`disabled, o`selected)
    ensures Inv(o, origin, incoming, target, olds, news, i', j', done')
    ensures i <= i' && j <= j' && i + j < i' + j'
    ensures old(QuietWalk(Models(olds[i..]), Models(news[j..]))) ==
            (!wrote && QuietWalk(Models(olds[i'..]), Models(news[j'..])))
  {
    wrote := true;
    if i == |olds| {
      // no old child left: append the new one
      AppendNew(o, origin, incoming, target, olds, news, i, j, done);
      i', j', done' := i, j + 1, done + [news[j]];
    } else if j == |news| {
      // no new child left: remove the old one unless it is preserved
      if !PreservedNode(olds[i]) {
        RemoveOld(o, origin, incoming, target, olds, news, i, j, done);
        done' := done;
      } else {
        KeepOld(o, origin, incoming, target, olds, news, i, j, done);
        done', wrote := done + [olds[i]], false;
      }
      i', j' := i + 1, j;
    } else if PreservedNode(olds[i]) {
      // a preserved old child is skipped
      KeepOld(o, origin, incoming, target, olds, news, i, j, done);
      i', j', done', wrote := i + 1, j, done + [olds[i]], false;
    } else if SimilarNodes(olds[i], news[j]) {
      // a similar pair is patched in place
      wrote := PatchPair(o, origin, incoming, target, olds, news, i, j, done);
      i', j', done' := i + 1, j + 1, done + [olds[i]];
    } else {
      // otherwise the new child takes the old one's place
      ReplaceOld(o, origin, incoming, target, olds, news, i, j, done);
      i', j', done' := i + 1, j + 1, done + [news[j]];
    }
  }

  /**
   * The state of the walk after `i` old and `j` new children: the live
   * children are the ones placed so far followed by the old ones not yet
   * visited.
   */
  ghost predicate Inv(o: Node, origin: set<Node>, incoming: set<Node>, target: seq<Tree<Node>>,
                      olds: seq<Node>, news: seq<Node>, i: int, j: int, done: seq<Node>)
    reads *
  {
    && 0 <= i <= |olds| && 0 <= j <= |news|
    && o.children == done + olds[i..]
    && Walking(o, origin, incoming, target, done, olds[i..], news[j..])
  }

  lemma WalkStart(o: Node, n: Node)
    requires o.Valid() && n.Valid() && o.repr !! n.repr
    ensures Inv(o, o.repr, n.repr - {n}, Walk(Models(o.children), Models(n.children)),
                o.children, n.children, 0, 0, [])
  {
    assert o.children[0..] == o.children && n.children[0..] == n.children;
    assert [] + o.children == o.children;
  }

  /** `oldNode.appendChild(newChild)` once the old children are used up. */
  method AppendNew(o: Node, ghost origin: set<Node>, ghost incoming: set<Node>, ghost target: seq<Tree<Node>>,
                   olds: seq<Node>, news: seq<Node>, i: int, j: int, ghost done: seq<Node>)
    requires Inv(o, origin, incoming, target, olds, news, i, j, done) && i == |olds| && j < |news|
    modifies o`children
    ensures unchanged(o`repr, o`attrs, o`checked, o`disabled, o`selected)
    ensures o.children == old(o.children) + [news[j]]
    ensures Inv(o, origin, incoming, target, olds, news, i, j + 1, done + [news[j]])
    ensures !old(QuietWalk(Models(olds[i..]), Models(news[j..])))
  {
    assert olds[i..] == [] && news[j..][0] == news[j] && news[j..][1..] == news[j + 1..];
    AppendStep(o, origin, incoming, target, done, olds[i..], news[j..]);
    o.children := o.children + [news[j]];
  }

  /** `oldNode.removeChild(oldChild)` for a surplus old child that is not preserved. */
  method RemoveOld(o: Node, ghost origin: set<Node>, ghost incoming: set<Node>, ghost target: seq<Tree<Node>>,
                   olds: seq<Node>, news: seq<Node>, i: int, j: int, ghost done: seq<Node>)
    requires Inv(o, origin, incoming, target, olds, news, i, j, done) && i < |olds| && j == |news|
    requires !PreservedNode(olds[i])
    modifies o`children
    ensures unchanged(o`repr, o`attrs, o`checked, o`disabled, o`selected)
    ensures o.children == Drop(old(o.children), olds[i])
    ensures Inv(o, origin, incoming, target, olds, news, i + 1, j, done)
    ensures !old(QuietWalk(Models(olds[i..]), Models(news[j..])))
  {
    assert news[j..] == [] && olds[i..][0] == olds[i] && olds[i..][1..] == olds[i + 1..];
    RemoveStep(o, origin, incoming, target, done, olds[i..], news[j..]);
    assert done + olds[i..] == done + [olds[i]] + olds[i + 1..];
    DropAt(done, olds[i], olds[i + 1..]);
    o.children := Drop(o.children, olds[i]);
  }

  /** A preserved old child is left where it is. */
  lemma KeepOld(o: Node, origin: set<Node>, incoming: set<Node>, target: seq<Tree<Node>>,
                olds: seq<Node>, news: seq<Node>, i: int, j: int, done: seq<Node>)
    requires Inv(o, origin, incoming, target, olds, news, i, j, done) && i < |olds|
    requires PreservedNode(olds[i])
    ensures Inv(o, origin, incoming, target, olds, news, i + 1, j, done + [olds[i]])
    ensures QuietWalk(Models(olds[i..]), Models(news[j..])) == QuietWalk(Models(olds[i + 1..]), Models(news[j..]))
  {
    assert olds[i..][0] == olds[i] && olds[i..][1..] == olds[i + 1..];
    KeepStep(o, origin, incoming, target, done, olds[i..], news[j..]);
    assert done + olds[i..] == done + [olds[i]] + olds[i + 1..];
  }

  /** `oldNode.replaceChild(newChild, oldChild)` for a dissimilar pair. */
  method ReplaceOld(o: Node, ghost origin: set<Node>, ghost incoming: set<Node>, ghost target: seq<Tree<Node>>,
                    olds: seq<Node>, news: seq<Node>, i: int, j: int, ghost done: seq<Node>)
    requires Inv(o, origin, incoming, target, olds, news, i, j, done) && i < |olds| && j < |news|
    requires !PreservedNode(olds[i]) && !SimilarNodes(olds[i], news[j])
    modifies o`children
    ensures unchanged(o`repr, o`attrs, o`checked, o`disabled, o`selected)
    ensures o.children == Put(old(o.children), olds[i], news[j])
    ensures Inv(o, origin, incoming, target, olds, news, i + 1, j + 1, done + [news[j]])
    ensures !old(QuietWalk(Models(olds[i..]), Models(news[j..])))
  {
    assert olds[i..][0] == olds[i] && olds[i..][1..] == olds[i + 1..];
    assert news[j..][0] == news[j] && news[j..][1..] == news[j + 1..];
    ReplaceStep(o, origin, incoming, target, done, olds[i..], news[j..]);
    assert done + olds[i..] == done + [olds[i]] + olds[i + 1..];
    PutAt(done, olds[i], news[j], olds[i + 1..]);
    o.children := Put(o.children, olds[i], news[j]);
    assert Walking(o, origin, incoming, target, done + [news[j]], olds[i + 1..], news[j + 1..]);
  }

  /** The recursive `diffAndPatch(oldNode, oldChild, newChild)` on a similar pair. */
  method PatchPair(o: Node, ghost origin: set<Node>, ghost incoming: set<Node>, ghost target: seq<Tree<Node>>,
                   olds: seq<Node>, news: seq<Node>, i: int, j: int, ghost done: seq<Node>) returns (ghost wrote: bool)
    requires Inv(o, origin, incoming, target, olds, news, i, j, done) && i < |olds| && j < |news|
    requires !PreservedNode(olds[i]) && SimilarNodes(olds[i], news[j])
    modifies olds[i].repr
    decreases incoming, 5
    ensures unchanged(o)
    ensures Inv(o, origin, incoming, target, olds, news, i + 1, j + 1, done + [olds[i]])
    ensures old(QuietWalk(Models(olds[i..]), Models(news[j..]))) ==
            (!wrote && QuietWalk(Models(olds[i + 1..]), Models(news[j + 1..])))
  {
    assert olds[i..][0] == olds[i] && olds[i..][1..] == olds[i + 1..];
    assert news[j..][0] == news[j] && news[j..][1..] == news[j + 1..];
    assert done + olds[i..] == done + [olds[i]] + olds[i + 1..];
    PairStep(o, origin, incoming, target, done, olds[i..], news[j..]);
    wrote := PatchHead(o, origin, incoming, target, done, olds[i + 1..], news[j + 1..], olds[i], news[j]);
  }

  /** Patches the old child `x` against the new child `y` and places it. */
  method PatchHead(o: Node, ghost origin: set<Node>, ghost incoming: set<Node>, ghost target: seq<Tree<Node>>,
                   ghost done: seq<Node>, ghost rest: seq<Node>, ghost todo: seq<Node>, x: Node, y: Node)
      returns (ghost wrote: bool)
    requires PairReady(o, origin, incoming, target, done, rest, todo, x, y)
    modifies x.repr
    decreases incoming, 4
    ensures unchanged(o)
    ensures Walking(o, origin, incoming, target, done + [x], rest, todo)
    ensures Models(rest) == old(Models(rest)) && Models(todo) == old(Models(todo))
    ensures wrote <==> !Quiet(old(x.Model()), old(y.Model()))
  {
    ghost var others := Reprs(done) + Reprs(rest) + Reprs(todo);
    wrote := PatchNode(x, y);
    PairDone(o, origin, incoming, target, done, rest, todo, x, y, others);
  }

  /** The walk is over: the old element's subtree is made of the placed children. */
  method Finish(o: Node, ghost origin: set<Node>, ghost incoming: set<Node>, ghost target: seq<Tree<Node>>,
                olds: seq<Node>, news: seq<Node>, i: int, j: int, ghost done: seq<Node>)
    requires Inv(o, origin, incoming, target, olds, news, i, j, done) && i == |olds| && j == |news|
    requires o.kind == ElementNode
    modifies o`repr
    ensures o.Valid() && o.repr <= origin + incoming && Models(o.children) == target
  {
    assert olds[i..] == [] && news[j..] == [] && done + [] == done;
    WalkEnd(o, origin, incoming, target, done, olds[i..], news[j..]);
    o.repr := {o} + Reprs(done);
  }

  /**
   * The nodes of the walk's three groups of subtrees: placed, old and new.
   */
  ghost predicate Layout(o: Node, origin: set<Node>, incoming: set<Node>,
                         done: seq<Node>, rest: seq<Node>, todo: seq<Node>)
    reads done, rest, todo, Reprs(done), Reprs(rest), Reprs(todo)
  {
    && o in origin && origin !! incoming
    && Forest(done) && Forest(rest) && Forest(todo)
    && Reprs(done) !! Reprs(rest) && Reprs(done) !! Reprs(todo) && Reprs(rest) !! Reprs(todo)
    && Reprs(rest) <= origin - {o} && Reprs(todo) <= incoming
    && Reprs(done) <= origin + incoming - {o}
  }

  /**
   * The state of the child walk: the placed children followed by the walk
   * of what is left make up the whole walk `target`.
   */
  ghost predicate Walking(o: Node, origin: set<Node>, incoming: set<Node>, target: seq<Tree<Node>>,
                          done: seq<Node>, rest: seq<Node>, todo: seq<Node>)
    reads done, rest, todo, Reprs(done), Reprs(rest), Reprs(todo)
  {
    && Layout(o, origin, incoming, done, rest, todo)
    && Models(done) + Walk(Models(rest), Models(todo)) == target
  }

  /** The head of a forest, and the forest after it. */
  lemma Uncons(cs: seq<Node>)
    requires cs != [] && Forest(cs)
    ensures cs[0].Valid() && cs[0].repr !! Reprs(cs[1..]) && Forest(cs[1..])
    ensures Reprs(cs) == cs[0].repr + Reprs(cs[1..])
    ensures Models(cs) == [cs[0].Model()] + Models(cs[1..])
  {
  }

  lemma WalkAppendEq(d: seq<Tree<Node>>, n0: Tree<Node>, ns: seq<Tree<Node>>)
    ensures d + Walk([], [n0] + ns) == (d + [n0]) + Walk([], ns)
  {
    assert d + ([n0] + ns) == (d + [n0]) + ns;
  }

  lemma WalkRemoveEq(d: seq<Tree<Node>>, o0: Tree<Node>, os: seq<Tree<Node>>)
    requires !Preserved(o0)
    ensures d + Walk([o0] + os, []) == d + Walk(os, [])
  {
    assert ([o0] + os)[0] == o0 && ([o0] + os)[1..] == os;
    assert Walk([o0] + os, []) == [] + Walk(os, []);
  }

  lemma WalkKeepEq(d: seq<Tree<Node>>, o0: Tree<Node>, os: seq<Tree<Node>>, ns: seq<Tree<Node>>)
    requires Preserved(o0)
    ensures d + Walk([o0] + os, ns) == (d + [o0]) + Walk(os, ns)
  {
    assert ([o0] + os)[0] == o0 && ([o0] + os)[1..] == os;
    assert Walk([o0] + os, ns) == [o0] + Walk(os, ns);
  }

  lemma WalkHeadEq(d: seq<Tree<Node>>, o0: Tree<Node>, os: seq<Tree<Node>>, n0: Tree<Node>, ns: seq<Tree<Node>>)
    requires !Preserved(o0)
    ensures d + Walk([o0] + os, [n0] + ns)
         == (d + [if Similar(o0, n0) then Patch(o0, n0) else n0]) + Walk(os, ns)
  {
    assert ([o0] + os)[0] == o0 && ([o0] + os)[1..] == os;
    assert ([n0] + ns)[0] == n0 && ([n0] + ns)[1..] == ns;
  }

  lemma AppendStep(o: Node, origin: set<Node>, incoming: set<Node>, target: seq<Tree<Node>>,
                   done: seq<Node>, rest: seq<Node>, todo: seq<Node>)
    requires Walking(o, origin, incoming, target, done, rest, todo) && rest == [] && todo != []
    ensures Walking(o, origin, incoming, target, done + [todo[0]], rest, todo[1..])
    ensures !QuietWalk(Models(rest), Models(todo))
  {
    Uncons(todo);
    ForestAppend(done, todo[0]);
    WalkAppendEq(Models(done), todo[0].Model(), Models(todo[1..]));
  }

  lemma RemoveStep(o: Node, origin: set<Node>, incoming: set<Node>, target: seq<Tree<Node>>,
                   done: seq<Node>, rest: seq<Node>, todo: seq<Node>)
    requires Walking(o, origin, incoming, target, done, rest, todo) && rest != [] && todo == []
    requires !PreservedNode(rest[0])
    ensures Walking(o, origin, incoming, target, done, rest[1..], todo)
    ensures rest[0] !in done
    ensures !QuietWalk(Models(rest), Models(todo))
  {
    Uncons(rest);
    WalkRemoveEq(Models(done), rest[0].Model(), Models(rest[1..]));
  }

  lemma KeepStep(o: Node, origin: set<Node>, incoming: set<Node>, target: seq<Tree<Node>>,
                 done: seq<Node>, rest: seq<Node>, todo: seq<Node>)
    requires Walking(o, origin, incoming, target, done, rest, todo) && rest != []
    requires PreservedNode(rest[0])
    ensures Walking(o, origin, incoming, target, done + [rest[0]], rest[1..], todo)
    ensures QuietWalk(Models(rest), Models(todo)) == QuietWalk(Models(rest[1..]), Models(todo))
  {
    Uncons(rest);
    ForestAppend(done, rest[0]);
    WalkKeepEq(Models(done), rest[0].Model(), Models(rest[1..]), Models(todo));
  }

  lemma ReplaceStep(o: Node, origin: set<Node>, incoming: set<Node>, target: seq<Tree<Node>>,
                    done: seq<Node>, rest: seq<Node>, todo: seq<Node>)
    requires Walking(o, origin, incoming, target, done, rest, todo) && rest != [] && todo != []
    requires !PreservedNode(rest[0]) && !SimilarNodes(rest[0], todo[0])
    ensures Walking(o, origin, incoming, target, done + [todo[0]], rest[1..], todo[1..])
    ensures rest[0] !in done
    ensures !QuietWalk(Models(rest), Models(todo))
  {
    Uncons(rest);
    Uncons(todo);
    ForestAppend(done, todo[0]);
    WalkHeadEq(Models(done), rest[0].Model(), Models(rest[1..]), todo[0].Model(), Models(todo[1..]));
  }

  /**
   * The similar pair `x`, `y` is next, ahead of the old children `rest`
   * and the new children `todo`.
   */
  ghost predicate PairReady(o: Node, origin: set<Node>, incoming: set<Node>, target: seq<Tree<Node>>,
                            done: seq<Node>, rest: seq<Node>, todo: seq<Node>, x: Node, y: Node)
    reads done, rest, todo, Reprs(done), Reprs(rest), Reprs(todo), x, y, x.repr, y.repr
  {
    && Layout(o, origin, incoming, done, rest, todo)
    && x.Valid() && y.Valid() && x.repr <= origin - {o} && y.repr <= incoming && x.repr !! y.repr
    && x.repr + y.repr !! Reprs(done) + Reprs(rest) + Reprs(todo)
    && SimilarNodes(x, y) && !PreservedNode(x)
    && Models(done) + [Patch(x.Model(), y.Model())] + Walk(Models(rest), Models(todo)) == target
  }

  /** Takes a similar pair off the heads of `rest` and `todo` before it is patched. */
  lemma PairStep(o: Node, origin: set<Node>, incoming: set<Node>, target: seq<Tree<Node>>,
                 done: seq<Node>, rest: seq<Node>, todo: seq<Node>)
    requires Walking(o, origin, incoming, target, done, rest, todo) && rest != [] && todo != []
    requires !PreservedNode(rest[0]) && SimilarNodes(rest[0], todo[0])
    ensures PairReady(o, origin, incoming, target, done, rest[1..], todo[1..], rest[0], todo[0])
    ensures QuietWalk(Models(rest), Models(todo)) ==
            (Quiet(rest[0].Model(), todo[0].Model()) && QuietWalk(Models(rest[1..]), Models(todo[1..])))
  {
    Uncons(rest);
    Uncons(todo);
    WalkHeadEq(Models(done), rest[0].Model(), Models(rest[1..]), todo[0].Model(), Models(todo[1..]));
  }

  /**
   * The patch of the pair `x`, `y` touched no node outside `x`'s old
   * subtree, so the rest of the walk is as it was and `x` can be placed.
   */
  twostate lemma PairDone(new o: Node, new origin: set<Node>, new incoming: set<Node>, new target: seq<Tree<Node>>,
                          new done: seq<Node>, new rest: seq<Node>, new todo: seq<Node>, new x: Node, new y: Node,
                          new others: set<Node>)
    requires old(allocated(o) && allocated(origin) && allocated(incoming) && allocated(target))
    requires old(allocated(done) && allocated(rest) && allocated(todo) && allocated(x) && allocated(y))
    requires old(PairReady(o, origin, incoming, target, done, rest, todo, x, y))
    requires others == old(Reprs(done) + Reprs(rest) + Reprs(todo)) && old(allocated(others)) && unchanged(others)
    requires x.Valid() && x.repr <= old(x.repr) + old(y.repr)
    requires x.Model() == Patch(old(x.Model()), old(y.Model()))
    ensures Walking(o, origin, incoming, target, done + [x], rest, todo)
    ensures Models(rest) == old(Models(rest)) && Models(todo) == old(Models(todo))
  {
    LayoutFrame(o, origin, incoming, done, rest, todo, others);
    JoinStep(o, origin, incoming, target, done, rest, todo, x);
  }

  /** The walk's subtrees are as they were when none of their nodes changed. */
  twostate lemma LayoutFrame(new o: Node, new origin: set<Node>, new incoming: set<Node>,
                             new done: seq<Node>, new rest: seq<Node>, new todo: seq<Node>, new s: set<Node>)
    requires old(allocated(o) && allocated(origin) && allocated(incoming))
    requires old(allocated(done) && allocated(rest) && allocated(todo))
    requires old(Layout(o, origin, incoming, done, rest, todo))
    requires old(Reprs(done) + Reprs(rest) + Reprs(todo)) <= s && old(allocated(s)) && unchanged(s)
    ensures Layout(o, origin, incoming, done, rest, todo)
    ensures Reprs(done) == old(Reprs(done)) && Reprs(rest) == old(Reprs(rest)) && Reprs(todo) == old(Reprs(todo))
    ensures Models(done) == old(Models(done)) && Models(rest) == old(Models(rest)) && Models(todo) == old(Models(todo))
  {
    ForestFrame(done, s);
    ForestFrame(rest, s);
    ForestFrame(todo, s);
  }

  /** Two untouched forests around a tree that stayed apart from them form one forest again. */
  twostate lemma Regrown(new before: seq<Node>, new o: Node, new after: seq<Node>, new s: set<Node>)
    requires old(allocated(before)) && old(allocated(after)) && old(allocated(s))
    requires old(Forest(before)) && old(Forest(after)) && old(Reprs(before) !! Reprs(after))
    requires s == old(Reprs(before) + Reprs(after)) && unchanged(s)
    requires o.Valid() && o.repr !! s
    ensures Forest(before + [o] + after)
    ensures Reprs(before + [o] + after) == old(Reprs(before)) + o.repr + old(Reprs(after))
  {
    ForestFrame(before, s);
    ForestFrame(after, s);
    ForestAppend(before, o);
    ForestConcat(before + [o], after);
  }

  /** A subtree none of whose nodes changed is the same subtree. */
  twostate lemma NodeFrame(new x: Node, new s: set<Node>)
    requires old(allocated(x)) && old(allocated(s)) && old(x.Valid()) && old(x.repr) <= s && unchanged(s)
    ensures x.Valid() && x.repr == old(x.repr) && x.Model() == old(x.Model())
  {
    ForestFrame([x], s);
    assert [x][1..] == [];
  }

  /** A forest none of whose nodes changed is the same forest. */
  twostate lemma ForestFrame(new cs: seq<Node>, new s: set<Node>)
    requires old(allocated(cs)) && old(Forest(cs)) && old(Reprs(cs)) <= s && old(allocated(s)) && unchanged(s)
    ensures Forest(cs) && Reprs(cs) == old(Reprs(cs)) && Models(cs) == old(Models(cs))
  {
  }

  /** Places the patched old child `x` after the children already placed. */
  lemma JoinStep(o: Node, origin: set<Node>, incoming: set<Node>, target: seq<Tree<Node>>,
                 done: seq<Node>, rest: seq<Node>, todo: seq<Node>, x: Node)
    requires Layout(o, origin, incoming, done, rest, todo)
    requires x.Valid() && x.repr <= origin + incoming - {o}
    requires x.repr !! Reprs(done) + Reprs(rest) + Reprs(todo)
    requires Models(done) + [x.Model()] + Walk(Models(rest), Models(todo)) == target
    ensures Walking(o, origin, incoming, target, done + [x], rest, todo)
  {
    ForestAppend(done, x);
  }

  lemma WalkEnd(o: Node, origin: set<Node>, incoming: set<Node>, target: seq<Tree<Node>>,
                done: seq<Node>, rest: seq<Node>, todo: seq<Node>)
    requires Walking(o, origin, incoming, target, done, rest, todo) && rest == [] && todo == []
    ensures Models(done) == target
  {
    assert Models(done) + [] == Models(done);
  }
}
