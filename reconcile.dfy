/**
 * Value-level specification of the tree reconciler `diffAndPatch`
 * (SRC/AZCore.js:155-245).
 *
 * A `Tree<Id>` is a snapshot of a live subtree: every node carries the
 * identity `id` of the live node it describes, so that "the node is kept"
 * and "the node is replaced" can be told apart.  `Patch(o, n)` is what sits
 * at the position of the old node `o` after it has been reconciled against
 * the similar new node `n`; `Walk(os, ns)` is the list of children that the
 * positional two-cursor walk leaves behind.  The heap model in module `Dom`
 * is proved to compute exactly these functions.
 */
module Reconcile {
  import opened Wrappers

  /** The live boolean properties that are synced from attribute presence. */
  datatype Props = Props(checked: bool, disabled: bool, selected: bool)

  function PropsOf(attrs: map<string, string>): Props {
    Props("checked" in attrs, "disabled" in attrs, "selected" in attrs)
  }

  /**
   * A text node, or an element with its tag name, whether it matches one of
   * the preserve selectors (`keep`), its attribute map, its live boolean
   * properties and its children.
   */
  datatype Tree<Id> =
    | Text(id: Id, text: string)
    | Element(id: Id, name: string, keep: bool, attrs: map<string, string>,
              props: Props, children: seq<Tree<Id>>)

  /**
   * `preserve.some(selector => node.matches?.(selector))`: only elements
   * have `matches`, so a text node is never preserved.
   */
  predicate Preserved<Id>(t: Tree<Id>) {
    t.Element? && t.keep
  }

  /** Same `nodeType` and same `nodeName` (every text node is named `#text`). */
  predicate Similar<Id>(a: Tree<Id>, b: Tree<Id>) {
    (a.Text? && b.Text?) || (a.Element? && b.Element? && a.name == b.name)
  }

  /**
   * The old node `o` reconciled in place against the similar new node `n`
   * (SRC/AZCore.js:178-244): a text node takes the new text; an element
   * takes the new attribute map, syncs `checked`/`disabled`/`selected` to
   * attribute presence and walks its children.  The old node keeps its
   * identity, tag and preserve status.
   */
  function Patch<Id>(o: Tree<Id>, n: Tree<Id>): (r: Tree<Id>)
    requires Similar(o, n)
    ensures r.id == o.id && Similar(r, n) && Preserved(r) == Preserved(o)
    decreases n, 0
  {
    match n
    case Text(_, text) => Text(o.id, text)
    case Element(_, _, _, attrs, _, kids) =>
      Element(o.id, o.name, o.keep, attrs, PropsOf(attrs), Walk(o.children, kids))
  }

  /**
   * The child walk of SRC/AZCore.js:207-243 with cursors on `os` and `ns`:
   * no old child left: the new child is appended; no new child left: the old
   * child is removed unless preserved; a preserved old child is skipped
   * without consuming a new child; a similar pair is patched; otherwise the
   * new child replaces the old one.
   */
  function Walk<Id>(os: seq<Tree<Id>>, ns: seq<Tree<Id>>): seq<Tree<Id>>
    decreases ns, |os|
  {
    if os == [] then ns
    else if ns == [] then
      (if Preserved(os[0]) then [os[0]] else []) + Walk(os[1..], [])
    else if Preserved(os[0]) then [os[0]] + Walk(os[1..], ns)
    else if Similar(os[0], ns[0]) then [Patch(os[0], ns[0])] + Walk(os[1..], ns[1..])
    else [ns[0]] + Walk(os[1..], ns[1..])
  }

  /**
   * The reconciliation of `o` against `n` writes nothing to the document: a
   * text node already has the new text; an element already has exactly the
   * new attributes (no `setAttribute`, no `removeAttribute`) and its child
   * walk appends, removes and replaces nothing.  Assigning the boolean
   * properties sets live state and is not counted as a write; the
   * attribute that the `disabled` assignment rewrites on a form control is
   * the exception, described by `SyncedAsWritten`.
   */
  predicate Quiet<Id>(o: Tree<Id>, n: Tree<Id>)
    decreases n, 0
  {
    match n
    case Text(_, text) => o.Text? && o.text == text
    case Element(_, _, _, attrs, _, kids) => o.Element? && o.attrs == attrs && QuietWalk(o.children, kids)
  }

  /** The child walk of `os` against `ns` only skips preserved children and patches quietly. */
  predicate QuietWalk<Id>(os: seq<Tree<Id>>, ns: seq<Tree<Id>>)
    decreases ns, |os|
  {
    if os == [] then ns == []
    else if ns == [] then Preserved(os[0]) && QuietWalk(os[1..], [])
    else if Preserved(os[0]) then QuietWalk(os[1..], ns)
    else Similar(os[0], ns[0]) && Quiet(os[0], ns[0]) && QuietWalk(os[1..], ns[1..])
  }

  // ---------------------------------------------------------------------
  // Counting and filtering helpers

  function CountPreserved<Id>(ts: seq<Tree<Id>>): nat {
    if ts == [] then 0 else (if Preserved(ts[0]) then 1 else 0) + CountPreserved(ts[1..])
  }

  function CountUnpreserved<Id>(ts: seq<Tree<Id>>): nat {
    if ts == [] then 0 else (if Preserved(ts[0]) then 0 else 1) + CountUnpreserved(ts[1..])
  }

  /** The preserved elements of `ts`, in order. */
  function PreservedOnly<Id>(ts: seq<Tree<Id>>): seq<Tree<Id>> {
    if ts == [] then []
    else (if Preserved(ts[0]) then [ts[0]] else []) + PreservedOnly(ts[1..])
  }

  /** The elements of `ts` that are not preserved, in order. */
  function Unpreserved<Id>(ts: seq<Tree<Id>>): seq<Tree<Id>> {
    if ts == [] then []
    else (if Preserved(ts[0]) then [] else [ts[0]]) + Unpreserved(ts[1..])
  }

  function Min(a: nat, b: nat): nat {
    if a <= b then a else b
  }

  // ---------------------------------------------------------------------
  // The child walk, one level

  /** A preserved old child is never removed nor replaced: it survives the walk unchanged. */
  lemma {:induction false} WalkKeepsPreserved<Id>(os: seq<Tree<Id>>, ns: seq<Tree<Id>>, k: nat)
    requires k < |os| && Preserved(os[k])
    ensures os[k] in Walk(os, ns)
    decreases ns, |os|
  {
    if ns == [] {
      if k > 0 {
        WalkKeepsPreserved(os[1..], [], k - 1);
      }
    } else if Preserved(os[0]) {
      if k > 0 {
        WalkKeepsPreserved(os[1..], ns, k - 1);
      }
    } else {
      WalkKeepsPreserved(os[1..], ns[1..], k - 1);
    }
  }

  /**
   * Every new child is placed exactly once and every preserved old child is
   * kept, so the walk leaves `|ns| + CountPreserved(os)` children: all the
   * other old children are dropped.
   */
  lemma {:induction false} WalkLength<Id>(os: seq<Tree<Id>>, ns: seq<Tree<Id>>)
    ensures |Walk(os, ns)| == |ns| + CountPreserved(os)
    decreases ns, |os|
  {
    if os == [] {
    } else if ns == [] {
      WalkLength(os[1..], []);
    } else if Preserved(os[0]) {
      WalkLength(os[1..], ns);
    } else {
      WalkLength(os[1..], ns[1..]);
    }
  }

  /** With no new children left, exactly the preserved old children remain, in order. */
  lemma {:induction false} WalkWithoutNew<Id>(os: seq<Tree<Id>>)
    ensures Walk(os, []) == PreservedOnly(os)
  {
    if os != [] {
      WalkWithoutNew(os[1..]);
    }
  }

  /**
   * Each non-preserved old child consumes one new child; the new children
   * left over once the old children are exhausted are appended at the end,
   * in order.
   */
  lemma WalkAppendsSurplus<Id>(os: seq<Tree<Id>>, ns: seq<Tree<Id>>)
    ensures var c := Min(|ns|, CountUnpreserved(os));
            Walk(os, ns) == Walk(os, ns[..c]) + ns[c..]
  {
    var c := Min(|ns|, CountUnpreserved(os));
    var head, surplus := ns[..c], ns[c..];
    if c == |ns| {
      assert head == ns && surplus == [];
    } else {
      assert ns == head + surplus;
      WalkExtends(os, head, surplus);
    }
  }

  /**
   * Once the new children cover every non-preserved old child, further new
   * children pass through the walk untouched, after everything else.
   */
  lemma {:induction false} WalkExtends<Id>(os: seq<Tree<Id>>, ns: seq<Tree<Id>>, t: seq<Tree<Id>>)
    requires CountUnpreserved(os) <= |ns|
    ensures Walk(os, ns + t) == Walk(os, ns) + t
    decreases |ns|, |os|
  {
    if os == [] {
    } else if ns == [] {
      assert ns + t == t;
      WalkPastPreserved(os, t);
    } else {
      var nt := ns + t;
      assert nt[0] == ns[0] && nt[1..] == ns[1..] + t;
      if Preserved(os[0]) {
        WalkExtends(os[1..], ns, t);
        var w := Walk(os[1..], ns);
        assert Walk(os, nt) == [os[0]] + (w + t);
        assert Walk(os, ns) == [os[0]] + w;
        assert [os[0]] + (w + t) == ([os[0]] + w) + t;
      } else {
        WalkExtends(os[1..], ns[1..], t);
        var h := if Similar(os[0], ns[0]) then Patch(os[0], ns[0]) else ns[0];
        var w := Walk(os[1..], ns[1..]);
        assert Walk(os, nt) == [h] + (w + t);
        assert Walk(os, ns) == [h] + w;
        assert [h] + (w + t) == ([h] + w) + t;
      }
    }
  }

  /** When every old child is preserved, all the new children are appended after them. */
  lemma {:induction false} WalkPastPreserved<Id>(os: seq<Tree<Id>>, t: seq<Tree<Id>>)
    requires CountUnpreserved(os) == 0
    ensures Walk(os, t) == Walk(os, []) + t
  {
    if os != [] && t != [] {
      assert Preserved(os[0]);
      WalkPastPreserved(os[1..], t);
      var w := Walk(os[1..], []);
      assert Walk(os, t) == [os[0]] + (w + t);
      assert Walk(os, []) == [os[0]] + w;
      assert [os[0]] + (w + t) == ([os[0]] + w) + t;
    }
  }

  // ---------------------------------------------------------------------
  // Deep properties of the reconciled tree

  /** No node of the tree matches a preserve selector. */
  predicate NoPreserved<Id>(t: Tree<Id>) {
    !Preserved(t) && (t.Element? ==> forall i :: 0 <= i < |t.children| ==> NoPreserved(t.children[i]))
  }

  /**
   * A freshly built tree: nothing in it matches a preserve selector and
   * every element's boolean properties agree with its attributes.
   */
  predicate WellBuilt<Id>(t: Tree<Id>) {
    !Preserved(t)
    && (t.Element? ==>
          t.props == PropsOf(t.attrs)
          && forall i :: 0 <= i < |t.children| ==> WellBuilt(t.children[i]))
  }

  /**
   * `r` mirrors the new tree `n`: it is `n` itself (inserted as a whole), or
   * a node of the same type and name with the same text, exactly the same
   * attributes, properties synced to them, and - once the preserved children
   * are set aside - children that mirror those of `n` one by one.
   */
  ghost predicate Mirrors<Id>(r: Tree<Id>, n: Tree<Id>)
    decreases n
  {
    r == n
    || (Similar(r, n)
        && (r.Text? ==> r.text == n.text)
        && (r.Element? ==>
              r.attrs == n.attrs && r.props == PropsOf(n.attrs)
              && var rs := Unpreserved(r.children);
                 |rs| == |n.children|
                 && forall i :: 0 <= i < |rs| ==> Mirrors(rs[i], n.children[i])))
  }

  /** The same tree up to node identities. */
  predicate SameShape<Id>(a: Tree<Id>, b: Tree<Id>) {
    match a
    case Text(_, t) => b.Text? && b.text == t
    case Element(_, name, keep, attrs, props, kids) =>
      b.Element? && b.name == name && b.keep == keep && b.attrs == attrs && b.props == props
      && |b.children| == |kids|
      && forall i :: 0 <= i < |kids| ==> SameShape(kids[i], b.children[i])
  }

  lemma {:induction false} UnpreservedAppend<Id>(a: seq<Tree<Id>>, b: seq<Tree<Id>>)
    ensures Unpreserved(a + b) == Unpreserved(a) + Unpreserved(b)
  {
    if a != [] {
      assert (a + b)[0] == a[0] && (a + b)[1..] == a[1..] + b;
      UnpreservedAppend(a[1..], b);
      var h: seq<Tree<Id>> := if Preserved(a[0]) then [] else [a[0]];
      calc {
        Unpreserved(a + b);
        h + Unpreserved(a[1..] + b);
        h + (Unpreserved(a[1..]) + Unpreserved(b));
        (h + Unpreserved(a[1..])) + Unpreserved(b);
      }
    } else {
      assert a + b == b;
    }
  }

  lemma {:induction false} UnpreservedNone<Id>(ns: seq<Tree<Id>>)
    requires forall i :: 0 <= i < |ns| ==> !Preserved(ns[i])
    ensures Unpreserved(ns) == ns
  {
    if ns != [] {
      UnpreservedNone(ns[1..]);
    }
  }

  /**
   * Attribute completeness at every depth: when the new tree has no
   * preserved nodes, the reconciled tree mirrors it.
   */
  lemma {:induction false} PatchMirrors<Id>(o: Tree<Id>, n: Tree<Id>)
    requires Similar(o, n) && NoPreserved(n)
    ensures Mirrors(Patch(o, n), n)
    decreases n, 0
  {
    if n.Element? {
      WalkMirrors(o.children, n.children);
    }
  }

  lemma {:induction false} WalkMirrors<Id>(os: seq<Tree<Id>>, ns: seq<Tree<Id>>)
    requires forall i :: 0 <= i < |ns| ==> NoPreserved(ns[i])
    ensures var rs := Unpreserved(Walk(os, ns));
            |rs| == |ns| && forall i :: 0 <= i < |rs| ==> Mirrors(rs[i], ns[i])
    decreases ns, |os|
  {
    var w := Walk(os, ns);
    if os == [] {
      UnpreservedNone(ns);
    } else if ns == [] {
      WalkMirrors(os[1..], []);
      UnpreservedAppend(if Preserved(os[0]) then [os[0]] else [], Walk(os[1..], []));
    } else if Preserved(os[0]) {
      WalkMirrors(os[1..], ns);
      UnpreservedAppend([os[0]], Walk(os[1..], ns));
    } else {
      WalkMirrors(os[1..], ns[1..]);
      var head := if Similar(os[0], ns[0]) then Patch(os[0], ns[0]) else ns[0];
      if Similar(os[0], ns[0]) {
        PatchMirrors(os[0], ns[0]);
      }
      UnpreservedAppend([head], Walk(os[1..], ns[1..]));
      var rs := Unpreserved(w);
      assert rs == [head] + Unpreserved(Walk(os[1..], ns[1..]));
      forall i | 1 <= i < |rs| ensures Mirrors(rs[i], ns[i]) {
        assert rs[i] == Unpreserved(Walk(os[1..], ns[1..]))[i - 1];
        assert ns[i] == ns[1..][i - 1];
      }
    }
  }

  /**
   * Reconciling a live tree against a new tree of the same shape (and free
   * of preserved nodes, with consistent properties) changes nothing: every
   * node keeps its identity and its content.
   */
  lemma {:induction false} PatchIdentical<Id>(o: Tree<Id>, n: Tree<Id>)
    requires WellBuilt(n) && SameShape(o, n)
    ensures Similar(o, n) && Patch(o, n) == o && Quiet(o, n)
    decreases n, 0
  {
    if n.Element? {
      WalkIdentical(o.children, n.children);
    }
  }

  lemma {:induction false} WalkIdentical<Id>(os: seq<Tree<Id>>, ns: seq<Tree<Id>>)
    requires |os| == |ns|
    requires forall i :: 0 <= i < |ns| ==> WellBuilt(ns[i]) && SameShape(os[i], ns[i])
    ensures Walk(os, ns) == os && QuietWalk(os, ns)
    decreases ns, |os|
  {
    if os != [] {
      PatchIdentical(os[0], ns[0]);
      WalkIdentical(os[1..], ns[1..]);
    }
  }

  lemma {:induction false} SameShapeReflexive<Id>(t: Tree<Id>)
    ensures SameShape(t, t)
  {
    if t.Element? {
      forall i | 0 <= i < |t.children| ensures SameShape(t.children[i], t.children[i]) {
        SameShapeReflexive(t.children[i]);
      }
    }
  }

  /**
   * Reconciling twice against the same freshly built tree is the same as
   * reconciling once.
   */
  lemma {:induction false} PatchIdempotent<Id>(o: Tree<Id>, n: Tree<Id>)
    requires Similar(o, n) && WellBuilt(n)
    ensures Patch(Patch(o, n), n) == Patch(o, n)
    decreases n, 0
  {
    if n.Element? {
      WalkIdempotent(o.children, n.children);
    }
  }

  lemma {:induction false} WalkIdempotent<Id>(os: seq<Tree<Id>>, ns: seq<Tree<Id>>)
    requires forall i :: 0 <= i < |ns| ==> WellBuilt(ns[i])
    ensures Walk(Walk(os, ns), ns) == Walk(os, ns)
    decreases ns, |os|
  {
    var w := Walk(os, ns);
    if os == [] {
      forall i | 0 <= i < |ns| ensures SameShape(ns[i], ns[i]) {
        SameShapeReflexive(ns[i]);
      }
      WalkIdentical(ns, ns);
    } else if ns == [] {
      WalkWithoutNew(os);
      WalkWithoutNew(w);
      PreservedOnlyIdempotent(os);
    } else if Preserved(os[0]) {
      WalkIdempotent(os[1..], ns);
      assert w[0] == os[0] && w[1..] == Walk(os[1..], ns);
    } else {
      WalkIdempotent(os[1..], ns[1..]);
      assert w[1..] == Walk(os[1..], ns[1..]);
      if Similar(os[0], ns[0]) {
        PatchIdempotent(os[0], ns[0]);
      } else {
        SameShapeReflexive(ns[0]);
        PatchIdentical(ns[0], ns[0]);
      }
    }
  }

  lemma {:induction false} PreservedOnlyIdempotent<Id>(ts: seq<Tree<Id>>)
    ensures PreservedOnly(PreservedOnly(ts)) == PreservedOnly(ts)
  {
    if ts != [] {
      PreservedOnlyIdempotent(ts[1..]);
      var p := PreservedOnly(ts[1..]);
      if Preserved(ts[0]) {
        assert PreservedOnly(ts) == [ts[0]] + p;
        assert ([ts[0]] + p)[0] == ts[0] && ([ts[0]] + p)[1..] == p;
      } else {
        assert PreservedOnly(ts) == p;
      }
    }
  }

  // ---------------------------------------------------------------------
  // A child list walked against itself

  /** The position of the first occurrence of `x` in `s`. */
  function First<T(==)>(s: seq<T>, x: T): (i: nat)
    requires x in s
    ensures i < |s| && s[i] == x && x !in s[..i]
  {
    if s[0] == x then 0
    else
      var j := First(s[1..], x);
      assert s[..j + 1] == [s[0]] + s[1..][..j];
      j + 1
  }

  /** Past a head other than `x`, the first occurrence is the tail's, one place on. */
  lemma FirstPastHead<T>(s: seq<T>, x: T)
    requires |s| > 0 && s[0] != x
    ensures x in s ==> var i := First(s, x);
      i == First(s[1..], x) + 1 && s[..i] == [s[0]] + s[1..][..i - 1] && s[i + 1..] == s[1..][i..]
  {
    if x in s {
      var i := First(s, x);
      assert s[..i] == [s[0]] + s[1..][..i - 1];
    }
  }

  /**
   * `s` without the first occurrence of `x`: `removeChild`, and the move
   * out of its old place that `appendChild` and `replaceChild` make of a
   * node already in the list.
   */
  function Drop<T(==)>(s: seq<T>, x: T): (r: seq<T>)
    ensures |r| == if x in s then |s| - 1 else |s|
    ensures x !in s ==> r == s
    ensures x in s ==> var i := First(s, x); r == s[..i] + s[i + 1..]
  {
    if s == [] then []
    else if s[0] == x then s[1..]
    else
      var rest := Drop(s[1..], x);
      FirstPastHead(s, x);
      assert s == [s[0]] + s[1..] && (x in s <==> x in s[1..]);
      [s[0]] + rest
  }

  /** `s` with the first occurrence of `x` replaced by `y`: `replaceChild(y, x)`. */
  function Put<T(==)>(s: seq<T>, x: T, y: T): (r: seq<T>)
    ensures |r| == |s|
    ensures x !in s ==> r == s
    ensures x in s ==> var i := First(s, x); r == s[..i] + [y] + s[i + 1..]
  {
    if s == [] then []
    else if s[0] == x then [y] + s[1..]
    else
      var rest := Put(s[1..], x, y);
      FirstPastHead(s, x);
      [s[0]] + rest
  }

  /** A node found after `a` is taken out from between `a` and `b`. */
  lemma DropAt<T>(a: seq<T>, x: T, b: seq<T>)
    requires x !in a
    ensures Drop(a + [x] + b, x) == a + b
  {
    var s := a + [x] + b;
    assert s[|a|] == x && s[..|a|] == a && s[|a| + 1..] == b;
  }

  /** A node found after `a` is exchanged in place between `a` and `b`. */
  lemma PutAt<T>(a: seq<T>, x: T, y: T, b: seq<T>)
    requires x !in a
    ensures Put(a + [x] + b, x, y) == a + [y] + b
  {
    var s := a + [x] + b;
    assert s[|a|] == x && s[..|a|] == a && s[|a| + 1..] == b;
  }

  /** A text node, or an element without children. */
  predicate Childless<Id>(t: Tree<Id>) {
    t.Text? || t.children == []
  }

  /**
   * A live child list: `cur[k]` is what the `k`-th child of the snapshot
   * holds now, and `order` lists the children in document order by their
   * snapshot index.
   */
  datatype Live<Id> = Live(cur: seq<Tree<Id>>, order: seq<nat>)

  /**
   * The child walk of SRC/AZCore.js:209-243 when the old and the new
   * children are one and the same live list, as when `diffAndPatch` is given
   * the same element as old and new node, over childless children.  Both
   * cursors index the snapshot `cur`; `appendChild` and `replaceChild` of a
   * child that is already in the list first take it out of its place, and a
   * `removeChild` or `replaceChild` of a child no longer in the list faults
   * (`None`).  A preserved old child advances only the old cursor, after
   * which the cursors pair different children.
   */
  function SelfWalk<Id>(cur: seq<Tree<Id>>, order: seq<nat>, i: nat, j: nat): (r: Option<Live<Id>>)
    requires i <= |cur| && j <= |cur|
    requires forall k :: 0 <= k < |cur| ==> Childless(cur[k])
    ensures r.Some? ==> |r.value.cur| == |cur|
    ensures r.Some? ==> forall k :: 0 <= k < |cur| ==> r.value.cur[k].id == cur[k].id
    decreases |cur| - i + |cur| - j
  {
    if i == |cur| && j == |cur| then Some(Live(cur, order))
    else if i == |cur| then SelfWalk(cur, Drop(order, j) + [j], i, j + 1)
    else if j == |cur| then
      if Preserved(cur[i]) then SelfWalk(cur, order, i + 1, j)
      else if i in order then SelfWalk(cur, Drop(order, i), i + 1, j)
      else None
    else if Preserved(cur[i]) then SelfWalk(cur, order, i + 1, j)
    else if Similar(cur[i], cur[j]) then
      var patched := Patch(cur[i], cur[j]);
      assert Childless(patched) by {
        if patched.Element? {
          assert Childless(cur[i]) && Childless(cur[j]);
          assert patched.children == Walk(cur[i].children, cur[j].children) == Walk([], []);
        }
      }
      SelfWalk(cur[i := patched], order, i + 1, j + 1)
    else if i in order then SelfWalk(cur, Put(Drop(order, j), i, j), i + 1, j + 1)
    else None
  }

  /**
   * A head holding a preserved `<meta azcore name="a">` followed by
   * `<meta name="b">`, walked against itself: the second meta is paired with
   * the first, takes over its attributes and is moved back to the end, so
   * the list is in its old order but its second child now reads
   * `azcore name="a"`.
   */
  lemma SelfWalkCopiesPreserved()
    ensures var p := Props(false, false, false);
      var s := Element(0, "meta", true, map["azcore" := "", "name" := "a"], p, []);
      var y := Element(1, "meta", false, map["name" := "b"], p, []);
      var r := SelfWalk([s, y], [0, 1], 0, 0);
      r.Some? && r.value.order == [0, 1] && r.value.cur[1].Element? && r.value.cur[1].attrs == s.attrs && r.value.cur[1].attrs != y.attrs
  {
    var p := Props(false, false, false);
    var s := Element(0, "meta", true, map["azcore" := "", "name" := "a"], p, []);
    var y := Element(1, "meta", false, map["name" := "b"], p, []);
    var y' := Patch(y, s);
    assert y' == Element(1, "meta", false, s.attrs, PropsOf(s.attrs), []);
    assert SelfWalk([s, y], [0, 1], 0, 0) == SelfWalk([s, y], [0, 1], 1, 0);
    assert [s, y][1 := y'] == [s, y'];
    assert SelfWalk([s, y], [0, 1], 1, 0) == SelfWalk([s, y'], [0, 1], 2, 1);
    assert Drop([0, 1], 1) + [1] == [0, 1];
    assert SelfWalk([s, y'], [0, 1], 2, 1) == SelfWalk([s, y'], [0, 1], 2, 2);
    assert "azcore" in s.attrs && "azcore" !in y.attrs;
  }

  /**
   * A head holding a preserved `<link azcore>` followed by a `<title>`,
   * walked against itself: the title is paired with the link, the link
   * takes the title's place by `replaceChild` and the title is then appended
   * again, so the list ends as it began and the title is not lost.
   */
  lemma SelfWalkRestoresOrder()
    ensures var p := Props(false, false, false);
      var s := Element(0, "link", true, map["azcore" := ""], p, []);
      var x := Element(1, "title", false, map[], p, []);
      SelfWalk([s, x], [0, 1], 0, 0) == Some(Live([s, x], [0, 1]))
  {
    var p := Props(false, false, false);
    var s := Element(0, "link", true, map["azcore" := ""], p, []);
    var x := Element(1, "title", false, map[], p, []);
    assert SelfWalk([s, x], [0, 1], 0, 0) == SelfWalk([s, x], [0, 1], 1, 0);
    assert !Similar(x, s) && 1 in [0, 1];
    assert Drop([0, 1], 0) == [1];
    assert Put([1], 1, 0) == [0];
    assert SelfWalk([s, x], [0, 1], 1, 0) == SelfWalk([s, x], [0], 2, 1);
    assert Drop([0], 1) + [1] == [0, 1];
    assert SelfWalk([s, x], [0], 2, 1) == SelfWalk([s, x], [0, 1], 2, 2);
  }

  // ---------------------------------------------------------------------
  // The boolean properties as written

  /**
   * The elements, by `nodeName`, whose `disabled` property reflects the
   * `disabled` attribute: the form controls of the HTML Standard.
   */
  predicate ReflectsDisabled(name: string) {
    name in {"BUTTON", "FIELDSET", "INPUT", "OPTGROUP", "OPTION", "SELECT", "TEXTAREA"}
  }

  /**
   * The attribute map that SRC/AZCore.js:190-205 leaves as written, once the
   * two loops have made it equal to the new map `attrs`.  Assigning
   * `checked` and `selected` sets live state only, but on a form control
   * `oldNode.disabled = true` sets the `disabled` attribute to the empty
   * string; `false` removes it, which the loops have already done.
   */
  function SyncedAsWritten(name: string, attrs: map<string, string>): (r: map<string, string>)
    ensures r.Keys == attrs.Keys && PropsOf(r) == PropsOf(attrs)
    ensures forall k :: k in attrs && k != "disabled" ==> r[k] == attrs[k]
    ensures "disabled" in attrs && !ReflectsDisabled(name) ==> r["disabled"] == attrs["disabled"]
    ensures "disabled" in attrs && ReflectsDisabled(name) ==> r["disabled"] == ""
  {
    if ReflectsDisabled(name) && "disabled" in attrs then attrs["disabled" := ""] else attrs
  }

  /**
   * As written, a disabled form control is not left alone by a tree of the
   * same shape: its `disabled` attribute is set again on every
   * reconciliation, and changes whenever it reads anything but the empty
   * string.  `Patch` and `Quiet` leave it untouched.
   */
  lemma DisabledRewritten<Id>(o: Tree<Id>, n: Tree<Id>)
    requires SameShape(o, n) && WellBuilt(n)
    requires o.Element? && ReflectsDisabled(o.name) && "disabled" in o.attrs
    ensures Patch(o, n) == o && Quiet(o, n)
    ensures SyncedAsWritten(o.name, n.attrs) != o.attrs <==> o.attrs["disabled"] != ""
  {
    PatchIdentical(o, n);
  }

  /** `<button disabled="disabled">` reconciled against an identical tree ends up reading `disabled=""`. */
  lemma DisabledButtonRewritten()
    ensures var attrs := map["disabled" := "disabled"];
      var b := Element(0, "BUTTON", false, attrs, PropsOf(attrs), []);
      Patch(b, b) == b && Quiet(b, b) && SyncedAsWritten(b.name, b.attrs) == map["disabled" := ""] != b.attrs
  {
    var attrs := map["disabled" := "disabled"];
    var b := Element(0, "BUTTON", false, attrs, PropsOf(attrs), []);
    DisabledRewritten(b, b);
  }
}
